/** How a fetch comes about: a window is read in pages, and a page that fails ends the fetch without failing it.
    How many bars a request may ask for before that shows, and what it then answers. */
module Klines {
  import opened Candles
  import opened CandleAgreement
  import opened CandleAnswers
  import opened CandleTheorems

  /** The exchange's own cap on the bars of one page. */
  const PAGE: nat := 1000

  /** The client's own table of interval lengths, in milliseconds; it knows eight timeframes. */
  function IntervalMs(timeframe: Timeframe): int {
    match timeframe
    case M1 => 60_000
    case M5 => 300_000
    case M15 => 900_000
    case M30 => 1_800_000
    case H1 => 3_600_000
    case H4 => 14_400_000
    case D => 86_400_000
    case W => 604_800_000
    case OtherTimeframe(_) => 0
  }

  /** The cache and the client agree on how long an interval is, for every timeframe the client knows; one it does
      not know counts as an hour in the cache. */
  lemma IntervalsAgree(timeframe: Timeframe)
    ensures TfDelta(timeframe) == if timeframe.OtherTimeframe? then 3_600_000_000 else 1000 * IntervalMs(timeframe)
  {
  }

  /** Bar `k` as quoted at `now`: a closed bar with its final values, the forming one with any. */
  function Quoted(src: Source, tf: int, now: int, forming: Bar, k: nat): Row
    requires tf > 0
  {
    Row(OpenAt(src, tf, k), if k < Closed(src, tf, now) then src.bar(k) else forming)
  }

  function Quotes(src: Source, tf: int, now: int, forming: Bar, a: nat, b: nat): (rows: seq<Row>)
    requires tf > 0
    ensures |rows| == if a < b then b - a else 0
  {
    if a >= b then [] else Quotes(src, tf, now, forming, a, b - 1) + [Quoted(src, tf, now, forming, b - 1)]
  }

  lemma {:induction false} QuoteAt(src: Source, tf: int, now: int, forming: Bar, a: nat, b: nat, i: nat)
    requires tf > 0 && i < |Quotes(src, tf, now, forming, a, b)|
    ensures Quotes(src, tf, now, forming, a, b)[i] == Quoted(src, tf, now, forming, a + i)
    decreases b
  {
    if i < b - 1 - a { QuoteAt(src, tf, now, forming, a, b - 1, i); }
  }

  lemma {:induction false} QuotesJoin(src: Source, tf: int, now: int, forming: Bar, a: nat, b: nat, c: nat)
    requires tf > 0 && a <= b <= c
    ensures Quotes(src, tf, now, forming, a, b) + Quotes(src, tf, now, forming, b, c) ==
              Quotes(src, tf, now, forming, a, c)
    decreases c
  {
    if b < c { QuotesJoin(src, tf, now, forming, a, b, c - 1); }
  }

  // ---------------------------------------------------------------- reading a window page by page

  /** One page: the first bars that open from `cursor` to `end`, both included, up to the cap. */
  function Page(src: Source, tf: int, now: int, forming: Bar, cursor: int, end: int): seq<Row>
    requires tf > 0
  {
    var lo, hi := Before(src, tf, cursor), Before(src, tf, end + 1);
    Quotes(src, tf, now, forming, lo, if hi < lo + PAGE then hi else lo + PAGE)
  }

  /** The rows that open before `end`. */
  function OpenBefore(rows: seq<Row>, end: int): seq<Row> {
    if rows == [] then []
    else OpenBefore(rows[..|rows| - 1], end) + if rows[|rows| - 1].time < end then [rows[|rows| - 1]] else []
  }

  /** How far a fetch of the bars `lo` to `hi - 1` gets from page `page` on: to the end, or to the first page that
      fails. */
  function Reached(up: nat -> bool, lo: nat, hi: nat, page: nat): nat
    decreases hi - (lo + PAGE * page)
  {
    if lo + PAGE * page >= hi then hi
    else if !up(page) then lo + PAGE * page
    else Reached(up, lo, hi, page + 1)
  }

  /** The bars of a window that arrive. */
  function Paged(src: Source, tf: int, forming: Bar, up: nat -> bool, start: int, now: int): seq<Row>
    requires tf > 0
  {
    var lo, hi := First(src, tf, start), Before(src, tf, FloorMs(now));
    Quotes(src, tf, now, forming, lo, if lo < hi then Reached(up, lo, hi, 0) else lo)
  }

  lemma {:induction false} BeforeMono(src: Source, tf: int, t: int, u: int)
    requires tf > 0 && t <= u
    ensures Before(src, tf, t) <= Before(src, tf, u)
  {
    var k := Before(src, tf, t);
    if k > 0 {
      BeforeIs(src, tf, t, k - 1);
      BeforeIs(src, tf, u, k - 1);
    }
  }

  lemma {:induction false} BeforeOpen(src: Source, tf: int, k: nat)
    requires tf > 0
    ensures Before(src, tf, OpenAt(src, tf, k)) == k
  {
    BeforeIs(src, tf, OpenAt(src, tf, k), k);
    if k > 0 { BeforeIs(src, tf, OpenAt(src, tf, k), k - 1); }
  }

  lemma {:induction false} OpenBeforeSplit(rows: seq<Row>, k: nat, end: int)
    requires k <= |rows| && (forall i :: 0 <= i < k ==> rows[i].time < end) &&
             (forall i :: k <= i < |rows| ==> rows[i].time >= end)
    ensures OpenBefore(rows, end) == rows[..k]
  {
    if rows != [] {
      var init := rows[..|rows| - 1];
      OpenBeforeSplit(init, if k == |rows| then k - 1 else k, end);
      assert k < |rows| ==> init[..k] == rows[..k];
    }
  }

  lemma OpenBeforeQuotes(src: Source, tf: int, now: int, forming: Bar, lo: nat, upto: nat, end: int, hi: nat)
    requires tf > 0 && lo <= upto && hi == Before(src, tf, end)
    ensures OpenBefore(Quotes(src, tf, now, forming, lo, upto), end) ==
              Quotes(src, tf, now, forming, lo, if upto < hi then upto else hi)
  {
    hide Before, OpenAt, OpenBefore;
    var rows := Quotes(src, tf, now, forming, lo, upto);
    var last := if upto < hi then upto else if lo < hi then hi else lo;
    forall i | 0 <= i < |rows| ensures rows[i].time < end <==> i < last - lo {
      QuoteAt(src, tf, now, forming, lo, upto, i);
      BeforeIs(src, tf, end, lo + i);
    }
    OpenBeforeSplit(rows, last - lo, end);
    QuotesJoin(src, tf, now, forming, lo, last, upto);
    assert rows[..last - lo] == Quotes(src, tf, now, forming, lo, last);
    assert lo >= hi ==> Quotes(src, tf, now, forming, lo, hi) == Quotes(src, tf, now, forming, lo, last) == [];
  }

  /** What one more page adds. */
  lemma NextPage(src: Source, tf: int, now: int, forming: Bar, lo: nat, got: nat, cursor: int, end: int)
    requires tf > 0 && lo <= got && Before(src, tf, cursor) == got
    requires Page(src, tf, now, forming, cursor, end) != []
    ensures var batch := Page(src, tf, now, forming, cursor, end);
            var got', cursor' := got + |batch|, batch[|batch| - 1].time + tf;
            && Quotes(src, tf, now, forming, lo, got) + batch == Quotes(src, tf, now, forming, lo, got')
            && Before(src, tf, cursor') == got' && cursor < cursor'
            && |batch| <= PAGE && (|batch| < PAGE ==> Before(src, tf, end) <= got')
  {
    var batch := Page(src, tf, now, forming, cursor, end);
    var got' := got + |batch|;
    QuotesJoin(src, tf, now, forming, lo, got, got');
    QuoteAt(src, tf, now, forming, got, got', |batch| - 1);
    BeforeOpen(src, tf, got');
    BeforeIs(src, tf, cursor, got' - 1);
    BeforeMono(src, tf, end, end + 1);
  }

  lemma {:induction false} NoNextPage(src: Source, tf: int, now: int, forming: Bar, cursor: int, end: int)
    requires tf > 0 && Page(src, tf, now, forming, cursor, end) == []
    ensures Before(src, tf, end) <= Before(src, tf, cursor)
  {
    BeforeMono(src, tf, end, end + 1);
  }

  /** `page` pages have arrived, and what is left decides how far the fetch gets. */
  ghost predicate OnTrack(up: nat -> bool, lo: nat, hi: nat, page: nat, got: nat) {
    got == lo + PAGE * page && (lo < hi ==> Reached(up, lo, hi, 0) == Reached(up, lo, hi, page))
  }

  /** The bars up to `got` have arrived and the fetch is over. */
  ghost predicate Over(up: nat -> bool, lo: nat, hi: nat, got: nat) {
    lo < hi ==> Reached(up, lo, hi, 0) == if got < hi then got else hi
  }

  lemma FullPage(up: nat -> bool, lo: nat, hi: nat, page: nat, got: nat)
    requires OnTrack(up, lo, hi, page, got) && up(page)
    ensures OnTrack(up, lo, hi, page + 1, got + PAGE)
  {
  }

  lemma FailedPage(up: nat -> bool, lo: nat, hi: nat, page: nat, got: nat)
    requires OnTrack(up, lo, hi, page, got) && (!up(page) || hi <= got)
    ensures Over(up, lo, hi, got)
  {
  }

  lemma ShortPage(up: nat -> bool, lo: nat, hi: nat, page: nat, got: nat, got': nat)
    requires OnTrack(up, lo, hi, page, got) && up(page) && hi <= got' < got + PAGE
    ensures Over(up, lo, hi, got')
  {
    assert lo + PAGE * (page + 1) >= hi;
    assert Reached(up, lo, hi, page + 1) == hi;
  }

  /** `fetch_ohlcv`. `up` says for each page whether some mirror answers it; a page nobody answers reads as an
      empty one. The rows come in order of time and without duplicates, so sorting them changes nothing. */
  method FetchOhlcv(src: Source, tf: int, forming: Bar, up: nat -> bool, start: int, now: int) returns (rows: seq<Row>)
    requires tf > 0
    ensures rows == Paged(src, tf, forming, up, start, now)
  {
    hide Before, Reached, OnTrack, Over, Page;
    var end := FloorMs(now);
    ghost var lo, hi := First(src, tf, start), Before(src, tf, end);
    ghost var got: nat := lo;
    var cursor := FloorMs(start);
    var page: nat := 0;
    rows := [];
    NothingYet(up, lo, hi);
    while cursor < end
      invariant lo <= got && rows == Quotes(src, tf, now, forming, lo, got) && Before(src, tf, cursor) == got
      invariant OnTrack(up, lo, hi, page, got)
      decreases end - cursor
    {
      var batch := if up(page) then Page(src, tf, now, forming, cursor, end) else [];
      if batch == [] {
        if up(page) { NoNextPage(src, tf, now, forming, cursor, end); }
        FailedPage(up, lo, hi, page, got);
        break;
      }
      NextPage(src, tf, now, forming, lo, got, cursor, end);
      rows := rows + batch;
      cursor := batch[|batch| - 1].time + tf;
      got := got + |batch|;
      if |batch| < PAGE {
        ShortPage(up, lo, hi, page, got - |batch|, got);
        break;
      }
      FullPage(up, lo, hi, page, got - PAGE);
      page := page + 1;
    }
    if end <= cursor && !Over(up, lo, hi, got) {
      BeforeMono(src, tf, end, cursor);
      FailedPage(up, lo, hi, page, got);
    }
    OpenBeforeQuotes(src, tf, now, forming, lo, got, end, hi);
    rows := OpenBefore(rows, end);
    OverIs(up, lo, hi, got);
  }

  lemma NothingYet(up: nat -> bool, lo: nat, hi: nat)
    ensures OnTrack(up, lo, hi, 0, lo)
  {
  }

  lemma {:induction false} OverIs(up: nat -> bool, lo: nat, hi: nat, got: nat)
    requires Over(up, lo, hi, got)
    ensures lo < hi ==> Reached(up, lo, hi, 0) == if got < hi then got else hi
  {
  }

  // ---------------------------------------------------------------- what a paged exchange answers

  lemma {:induction false} ReachedBounds(up: nat -> bool, lo: nat, hi: nat, page: nat)
    requires lo + PAGE * page <= hi
    ensures lo + PAGE * page <= Reached(up, lo, hi, page) <= hi
    decreases hi - (lo + PAGE * page)
  {
    if lo + PAGE * page < hi && up(page) && lo + PAGE * (page + 1) <= hi {
      ReachedBounds(up, lo, hi, page + 1);
    }
  }

  /** A fetch gets past bar `n - 1` exactly if every page up to that bar's arrives. */
  lemma {:induction false} ReachesExactly(up: nat -> bool, lo: nat, hi: nat, page: nat, n: nat)
    requires lo + PAGE * page < n <= hi
    ensures n <= Reached(up, lo, hi, page) <==> forall i: nat :: page <= i && lo + PAGE * i < n ==> up(i)
    decreases n - (lo + PAGE * page)
  {
    if up(page) {
      if lo + PAGE * (page + 1) < n {
        ReachesExactly(up, lo, hi, page + 1, n);
      } else if lo + PAGE * (page + 1) <= hi {
        ReachedBounds(up, lo, hi, page + 1);
      }
    }
  }

  /** The exchange as a fetch function; it knows eight timeframes and refuses every other. */
  function Exchange(src: Source, timeframe: Timeframe, forming: Bar, up: nat -> bool): (int, int) -> Fetched {
    (start: int, now: int) =>
      if timeframe.OtherTimeframe? then Failed else Frame(Paged(src, TfDelta(timeframe), forming, up, start, now))
  }

  lemma PagedIsPrefix(src: Source, tf: int, forming: Bar, up: nat -> bool, start: int, now: int)
    requires tf > 0
    ensures WindowPrefix(Paged(src, tf, forming, up, start, now), src, tf, start, now)
  {
    var lo, hi := First(src, tf, start), Before(src, tf, FloorMs(now));
    if lo < hi {
      ReachedBounds(up, lo, hi, 0);
      var to := Reached(up, lo, hi, 0);
      forall i | 0 <= i < to - lo
        ensures Quotes(src, tf, now, forming, lo, to)[i] == Quoted(src, tf, now, forming, lo + i)
      {
        QuoteAt(src, tf, now, forming, lo, to, i);
      }
    }
  }

  /** Whichever pages fail, the exchange answers with a prefix of the window. */
  lemma ExchangeAnswers(src: Source, timeframe: Timeframe, forming: Bar, up: nat -> bool, now: int)
    ensures Answers(Exchange(src, timeframe, forming, up), src, TfDelta(timeframe), now)
  {
    var fetch := Exchange(src, timeframe, forming, up);
    forall start | fetch(start, now).Frame?
      ensures WindowPrefix(fetch(start, now).rows, src, TfDelta(timeframe), start, now)
    {
      PagedIsPrefix(src, TfDelta(timeframe), forming, up, start, now);
    }
  }

  /** A timeframe the client does not know is never fetched: whatever the pages, a request for it is answered from the
      cache alone or not at all. */
  lemma UnknownTimeframe(table: Table, s: Series, limit: nat, now: int, src: Source, forming: Bar, up: nat -> bool,
          written: bool)
    requires s.timeframe.OtherTimeframe?
    ensures var rows := Read(table, s, limit);
            var (table', response) := Respond(table, s, limit, now, Exchange(src, s.timeframe, forming, up), written);
            && table' == table
            && response == if rows != [] && |rows| >= limit / 2 && now - Newest(rows) <= 2 * 3_600_000_000
                           then Served(rows) else Unavailable
  {
    IntervalsAgree(s.timeframe);
    AnsweredWithoutExchange(table, s, limit, now, Exchange(src, s.timeframe, forming, up), written);
  }

  /** Where a request's refetch starts. */
  function From(table: Table, s: Series, limit: nat, now: int, src: Source): nat {
    First(src, TfDelta(s.timeframe), FetchStart(Read(table, s, limit), limit, TfDelta(s.timeframe), now))
  }

  /** The frame reaches closed bar `b - 1` exactly if every page up to that bar's arrives. */
  lemma FrameReachesExactly(table: Table, s: Series, limit: nat, now: int, src: Source, forming: Bar, up: nat -> bool,
          b: nat)
    returns (lo: nat)
    requires Asked(limit) && Sound(table, s, src, now) && !s.timeframe.OtherTimeframe?
    requires From(table, s, limit, now, src) < b <= Closed(src, TfDelta(s.timeframe), now)
    ensures lo == From(table, s, limit, now, src)
    ensures var fetched := Refetched(table, s, limit, now, Exchange(src, s.timeframe, forming, up));
            && fetched.Frame? && IsFrame(fetched.rows, src, TfDelta(s.timeframe), lo,
                 Closed(src, TfDelta(s.timeframe), now))
            && (b <= lo + |fetched.rows| <==> forall i: nat :: lo + PAGE * i < b ==> up(i))
  {
    hide Answers, IsFrame, Paged, DropFormingBar;
    ExchangeAnswers(src, s.timeframe, forming, up, now);
    lo := RefreshFrame(table, s, limit, now, src, Exchange(src, s.timeframe, forming, up));
    PagedReaches(src, TfDelta(s.timeframe), forming, up,
          FetchStart(Read(table, s, limit), limit, TfDelta(s.timeframe), now), now, b);
  }

  lemma PagedReaches(src: Source, tf: int, forming: Bar, up: nat -> bool, start: int, now: int, b: nat)
    requires tf >= 1000 && First(src, tf, start) < b <= Closed(src, tf, now)
    ensures b <= First(src, tf, start) + |DropFormingBar(Paged(src, tf, forming, up, start, now), tf, now)| <==>
              forall i: nat :: First(src, tf, start) + PAGE * i < b ==> up(i)
  {
    var lo, hi := First(src, tf, start), Before(src, tf, FloorMs(now));
    ClosedHasOpened(src, tf, now);
    ReachedBounds(up, lo, hi, 0);
    ReachesExactly(up, lo, hi, 0, b);
    PagedIsPrefix(src, tf, forming, up, start, now);
    FrameIsClosedBars(Paged(src, tf, forming, up, start, now), src, tf, start, now);
  }

  lemma {:induction false} ClosedHasOpened(src: Source, tf: int, now: int)
    requires tf >= 1000
    ensures Closed(src, tf, now) <= Before(src, tf, FloorMs(now))
  {
    var n := Closed(src, tf, now);
    if n > 0 {
      ClosedIs(src, tf, now, n - 1);
      BeforeIs(src, tf, FloorMs(now), n - 1);
    }
  }

  lemma BarsEndNewest(frame: seq<Row>, src: Source, tf: int, now: int, lo: nat)
    requires tf > 0 && IsFrame(frame, src, tf, lo, Closed(src, tf, now)) && lo < Closed(src, tf, now)
    ensures EndsUpToDate(frame, tf, now) <==> lo + |frame| == Closed(src, tf, now)
  {
    if frame != [] { NewestExactly(src, tf, now, lo + |frame|); }
  }

  /** Up to 995 bars come in one page, whatever else fails: every answer of a miss ends at the newest closed bar,
      and there is one exactly if that page arrives and a bar has ever closed. */
  lemma OnePageSuffices(table: Table, s: Series, limit: nat, now: int, src: Source, forming: Bar, up: nat -> bool,
          written: bool)
    requires 1 <= limit <= 995 && Sound(table, s, src, now) && !s.timeframe.OtherTimeframe? &&
             !Cached(table, s, limit, now)
    ensures var response := Respond(table, s, limit, now, Exchange(src, s.timeframe, forming, up), written).1;
            && (response.Served? <==> up(0) && 0 < Closed(src, TfDelta(s.timeframe), now))
            && (response.Served? ==> EndsNewest(response.rows, src, TfDelta(s.timeframe), now))
  {
    hide Answers, Paged, Exchange;
    var fetch := Exchange(src, s.timeframe, forming, up);
    ExchangeAnswers(src, s.timeframe, forming, up, now);
    CacheAgreement(table, s, limit, now, src, fetch, written);
    UnavailableExactly(table, s, limit, now, src, fetch, written);
    if 0 < Closed(src, TfDelta(s.timeframe), now) {
      var n := Closed(src, TfDelta(s.timeframe), now);
      FirstPageServes(table, s, limit, now, src, forming, up);
      FetchBounded(RowsOf(table, s), limit, src, TfDelta(s.timeframe), now);
      var lo := FrameReachesExactly(table, s, limit, now, src, forming, up, n);
      BarsEndNewest(Refetched(table, s, limit, now, fetch).rows, src, TfDelta(s.timeframe), now, lo);
    }
  }

  lemma FirstPageServes(table: Table, s: Series, limit: nat, now: int, src: Source, forming: Bar, up: nat -> bool)
    requires Asked(limit) && Sound(table, s, src, now) && !s.timeframe.OtherTimeframe? &&
             0 < Closed(src, TfDelta(s.timeframe), now)
    ensures From(table, s, limit, now, src) < Closed(src, TfDelta(s.timeframe), now)
    ensures var raw := Fetch(table, s, limit, now, Exchange(src, s.timeframe, forming, up));
            raw.Frame? && (raw.rows == [] <==> !up(0))
  {
    hide Answers, IsFrame, Paged, DropFormingBar;
    ExchangeAnswers(src, s.timeframe, forming, up, now);
    var lo := RefreshFrame(table, s, limit, now, src, Exchange(src, s.timeframe, forming, up));
    PagedEmptyExactly(src, TfDelta(s.timeframe), forming, up,
          FetchStart(Read(table, s, limit), limit, TfDelta(s.timeframe), now), now);
  }

  lemma PagedEmptyExactly(src: Source, tf: int, forming: Bar, up: nat -> bool, start: int, now: int)
    requires tf >= 1000 && First(src, tf, start) < Closed(src, tf, now)
    ensures Paged(src, tf, forming, up, start, now) == [] <==> !up(0)
  {
    var lo, hi := First(src, tf, start), Before(src, tf, FloorMs(now));
    ClosedHasOpened(src, tf, now);
    ReachedBounds(up, lo, hi, 0);
    ReachesExactly(up, lo, hi, 0, lo + 1);
  }

  // ---------------------------------------------------------------- where the promises fail

  predicate FirstOnly(page: nat) {
    page == 0
  }

  /** From 996 bars on one page is not enough: with an empty table, a window whose second page fails is answered
      with bars that end short of the newest closed one, from 997 on with stale ones, and without an error. */
  lemma SecondPageNeeded(s: Series, limit: nat, src: Source, forming: Bar, written: bool)
    requires 996 <= limit <= 2000 && !s.timeframe.OtherTimeframe?
    ensures var tf := TfDelta(s.timeframe); var now := OpenAt(src, tf, limit + 5);
            var response := Respond(map[], s, limit, now, Exchange(src, s.timeframe, forming, FirstOnly), written).1;
            && response.Served? && !EndsNewest(response.rows, src, tf, now)
            && (limit >= 997 ==> StaleAnswer(response, tf, now))
  {
    hide Answers, Exchange, Paged, Respond, OpenAt, Before;
    var tf := TfDelta(s.timeframe); var now := OpenAt(src, tf, limit + 5);
    var fetch := Exchange(src, s.timeframe, forming, FirstOnly);
    ClosedAtOpen(src, tf, limit + 5);
    ExchangeAnswers(src, s.timeframe, forming, FirstOnly, now);
    UnavailableExactly(map[], s, limit, now, src, fetch, written);
    FirstPageServes(map[], s, limit, now, src, forming, FirstOnly);
    CacheAgreement(map[], s, limit, now, src, fetch, written);
    FirstPageShort(s, limit, src, forming);
    assert Read(map[], s, limit) == [];
    StaleServedExactly(map[], s, limit, now, fetch, written);
  }

  /** What the first page holds then: bars 0 to 999, the last of them six or more intervals short of `limit + 5`. */
  lemma FirstPageShort(s: Series, limit: nat, src: Source, forming: Bar)
    requires 996 <= limit <= 2000 && !s.timeframe.OtherTimeframe?
    ensures var tf := TfDelta(s.timeframe); var now := OpenAt(src, tf, limit + 5);
            var fetched := Refetched(map[], s, limit, now, Exchange(src, s.timeframe, forming, FirstOnly));
            && fetched.Frame? && fetched.rows != [] && FrameInOrder(fetched) && !EndsUpToDate(fetched.rows, tf, now)
            && (limit >= 997 ==> NewestStale(fetched.rows, tf, now))
  {
    hide Exchange, Paged, Before, Refetched;
    var tf, n := TfDelta(s.timeframe), limit + 5;
    var now := OpenAt(src, tf, n);
    ClosedAtOpen(src, tf, n);
    FirstWindow(s, limit, src);
    var lo := FrameReachesExactly(map[], s, limit, now, src, forming, FirstOnly, 1);
    lo := FrameReachesExactly(map[], s, limit, now, src, forming, FirstOnly, n);
    lo := FrameReachesExactly(map[], s, limit, now, src, forming, FirstOnly, n - 1);
    assert lo + PAGE * 1 < n && !FirstOnly(1);
    var frame := Refetched(map[], s, limit, now, Exchange(src, s.timeframe, forming, FirstOnly)).rows;
    BarsInOrder(frame, src, tf, lo, lo + |frame|);
    BarsEndNewest(frame, src, tf, now, lo);
    if limit >= 997 {
      OpenAtOrder(src, tf, lo + |frame| - 1, n - 2);
    }
  }

  lemma {:induction false} ClosedAtOpen(src: Source, tf: int, k: nat)
    requires tf > 0 && k > 0
    ensures Closed(src, tf, OpenAt(src, tf, k)) == k
  {
    ClosedIs(src, tf, OpenAt(src, tf, k), k);
    ClosedIs(src, tf, OpenAt(src, tf, k), k - 1);
  }

  lemma FirstWindow(s: Series, limit: nat, src: Source)
    ensures From(map[], s, limit, OpenAt(src, TfDelta(s.timeframe), limit + 5), src) == 0
  {
    var tf := TfDelta(s.timeframe);
    OpenAtShift(src, tf, 0, limit + 5);
    BeforeIs(src, tf, FloorMs(src.origin), 0);
  }

  // ---------------------------------------------------------------- two more answers that fall short

  /** The source's first `b` bars, as stored rows. */
  function FirstBars(src: Source, tf: int, b: nat): (rows: seq<Row>)
    ensures |rows| == b
  {
    if b == 0 then [] else FirstBars(src, tf, b - 1) + [SourceRow(src, tf, b - 1)]
  }

  lemma {:induction false} FirstBarsAre(src: Source, tf: int, b: nat)
    ensures AreBars(FirstBars(src, tf, b), src, tf, 0, b)
  {
    if b > 0 { FirstBarsAre(src, tf, b - 1); }
  }

  /** A table that holds the first `limit` bars of one series is sound, and a read serves them all. */
  lemma {:induction false} Holding(s: Series, limit: nat, src: Source, now: int)
    requires Asked(limit) && limit <= Closed(src, TfDelta(s.timeframe), now)
    ensures var table := map[s := FirstBars(src, TfDelta(s.timeframe), limit)];
            && Sound(table, s, src, now) && AreBars(Read(table, s, limit), src, TfDelta(s.timeframe), 0, limit)
  {
    var tf := TfDelta(s.timeframe);
    var all := FirstBars(src, tf, limit);
    FirstBarsAre(src, tf, limit);
    BarsInOrder(all, src, tf, 0, limit);
    forall row | row in all ensures IsBar(row, src, tf, limit) {
      var i :| 0 <= i < |all| && all[i] == row;
      assert row == SourceRow(src, tf, i);
    }
    MoreBars(all, src, tf, limit, Closed(src, tf, now));
    forall k | 0 <= k < limit ensures SourceRow(src, tf, k) in all {
      assert all[k] in all;
    }
    ReadReachesBack(all, limit, src, tf, limit, 0);
  }

  /** A hit that ends one bar short: two intervals after the newest cached bar opened, to the instant. */
  lemma {:induction false} HitOneShort(s: Series, limit: nat, src: Source, fetch: (int, int) -> Fetched, written: bool)
    requires Asked(limit)
    ensures var tf := TfDelta(s.timeframe);
            var table := map[s := FirstBars(src, tf, limit)];
            var now := OpenAt(src, tf, limit + 1);
            var response := Respond(table, s, limit, now, fetch, written).1;
            && response.Served? && |response.rows| == limit && !EndsNewest(response.rows, src, tf, now)
  {
    var tf := TfDelta(s.timeframe);
    var table := map[s := FirstBars(src, tf, limit)];
    var now := OpenAt(src, tf, limit + 1);
    ClosedAtOpen(src, tf, limit + 1);
    Holding(s, limit, src, now);
    RespondCases(table, s, limit, now, fetch, written);
    HitOneShortExactly(table, s, limit, now, src);
  }

  /** A tail refresh whose write fails: four bars answered, however many were asked for and cached. */
  lemma {:induction false} ShortAnswer(s: Series, limit: nat, src: Source, forming: Bar, up: nat -> bool)
    requires 10 <= limit <= 2000 && !s.timeframe.OtherTimeframe? && up(0)
    ensures var tf := TfDelta(s.timeframe);
            var table := map[s := FirstBars(src, tf, limit)];
            var now := OpenAt(src, tf, limit + 2);
            var response := Respond(table, s, limit, now, Exchange(src, s.timeframe, forming, up), false).1;
            && response.Served? && |response.rows| == 4 && !LongEnough(response.rows, limit, Closed(src, tf, now))
  {
    hide Exchange, Paged, Answers, Closed, Agrees, Respond, Refetched, OpenAt, First, FetchStart, TailOnly, FirstBars,
          AreBars;
    var tf := TfDelta(s.timeframe);
    var table := map[s := FirstBars(src, tf, limit)];
    var now := OpenAt(src, tf, limit + 2);
    var fetch := Exchange(src, s.timeframe, forming, up);
    ClosedAtOpen(src, tf, limit + 2);
    Holding(s, limit, src, now);
    ThreeBehind(table, s, limit, src);
    ExchangeAnswers(src, s.timeframe, forming, up, now);
    FirstPageServes(table, s, limit, now, src, forming, up);
    UnavailableExactly(table, s, limit, now, src, fetch, false);
    var a, b := TailRefreshExtends(table, s, limit, now, src, fetch, false);
    SameRun(Read(table, s, limit), src, tf, 0, limit, a, b);
    var lo := FrameReachesExactly(table, s, limit, now, src, forming, up, limit + 2);
    assert forall i: nat :: lo + PAGE * i < limit + 2 ==> i == 0;
  }

  lemma SameRun(rows: seq<Row>, src: Source, tf: int, a: nat, b: nat, a': nat, b': nat)
    requires tf > 0 && rows != [] && AreBars(rows, src, tf, a, b) && AreBars(rows, src, tf, a', b')
    ensures a == a' && b == b'
  {
    assert rows[0] == SourceRow(src, tf, a + 0) == SourceRow(src, tf, a' + 0);
    SameIndex(src, tf, a, a');
  }

  lemma {:induction false} ThreeBehind(table: Table, s: Series, limit: nat, src: Source)
    requires 10 <= limit && AreBars(Read(table, s, limit), src, TfDelta(s.timeframe), 0, limit)
    ensures var now := OpenAt(src, TfDelta(s.timeframe), limit + 2);
            !Cached(table, s, limit, now) && TailOnly(Read(table, s, limit), limit, TfDelta(s.timeframe), now)
  {
    var tf, rows := TfDelta(s.timeframe), Read(table, s, limit);
    assert rows[limit - 1] == SourceRow(src, tf, 0 + (limit - 1));
    hide Read, AreBars, OpenAt, CeilDiv, TfDelta;
    OpenAtShift(src, tf, limit - 1, 3);
    ThreeIntervals(tf);
  }

  lemma ThreeIntervals(tf: int)
    requires tf > 0
    ensures CeilDiv(tf * 3, tf) == 3
  {
    assert -(tf * 3) == tf * -3;
    assert (tf * -3) / tf == -3;
  }
}
