/** The candle cache: a table of closed bars, one per series and open time, refreshed from the exchange.

    Times are integers (microseconds). The exchange is a parameter: a function from a fetch window to
    what the fetch returned; `Klines` says how a fetch comes about. */
module Candles {
  datatype Bar = Bar(open: real, high: real, low: real, close: real, volume: real)

  datatype Row = Row(time: int, bar: Bar)

  datatype Timeframe = M1 | M5 | M15 | M30 | H1 | H4 | D | W | OtherTimeframe(name: string)

  datatype Series = Series(user: string, pair: string, timeframe: Timeframe)

  /** The rows of each series in primary-key order: one row per open time, oldest first. */
  type Table = map<Series, seq<Row>>

  /** `None` is a failed fetch; a frame is sorted by open time. */
  datatype Fetched = Failed | Frame(rows: seq<Row>)

  datatype Response = Served(rows: seq<Row>) | Unavailable

  function TfMinutes(timeframe: Timeframe): (minutes: int)
    ensures minutes > 0
  {
    match timeframe
    case M1 => 1
    case M5 => 5
    case M15 => 15
    case M30 => 30
    case H1 => 60
    case H4 => 240
    case D => 1440
    case W => 10080
    case OtherTimeframe(_) => 60
  }

  function TfDelta(timeframe: Timeframe): (tf: int)
    ensures tf >= 60_000_000
  {
    TfMinutes(timeframe) * 60_000_000
  }

  /** More than two intervals behind. */
  predicate IsStale(newest: int, tf: int, now: int) {
    now - newest > 2 * tf
  }

  function DropFormingBar(rows: seq<Row>, tf: int, now: int): seq<Row> {
    if rows == [] then rows
    else if rows[|rows| - 1].time + tf > now then rows[..|rows| - 1]
    else rows
  }

  /** Python's `math.ceil(a / b)`. */
  function CeilDiv(a: int, b: int): int
    requires b > 0
  {
    -((-a) / b)
  }

  // ---------------------------------------------------------------- the table

  function RowsOf(table: Table, s: Series): seq<Row> {
    if s in table then table[s] else []
  }

  ghost predicate InKeyOrder(rows: seq<Row>) {
    forall i, j :: 0 <= i < j < |rows| ==> rows[i].time < rows[j].time
  }

  function LastRows(rows: seq<Row>, limit: nat): seq<Row> {
    if |rows| <= limit then rows else rows[|rows| - limit..]
  }

  /** `ORDER BY time DESC LIMIT limit`, then sorted ascending. */
  function Select(table: Table, s: Series, limit: nat): seq<Row> {
    LastRows(RowsOf(table, s), limit)
  }

  /** Where the unbroken run that ends at row `n - 1` begins: the last row up to there that stands more than
      one and a half intervals after its predecessor, else the first row. */
  function TailCut(rows: seq<Row>, tf: int, n: nat): (cut: nat)
    requires n <= |rows|
    ensures cut <= n && (0 < n ==> cut < n)
  {
    if n <= 1 then 0
    else if 2 * (rows[n - 1].time - rows[n - 2].time) > 3 * tf then n - 1
    else TailCut(rows, tf, n - 1)
  }

  function UnbrokenTail(rows: seq<Row>, tf: int): seq<Row> {
    rows[TailCut(rows, tf, |rows|)..]
  }

  function Read(table: Table, s: Series, limit: nat): seq<Row> {
    UnbrokenTail(Select(table, s, limit), TfDelta(s.timeframe))
  }

  /** Insert one row, or update the row that is already there at that time. */
  function Put(rows: seq<Row>, row: Row): seq<Row> {
    if rows == [] then [row]
    else
      var n := |rows| - 1;
      if rows[n].time < row.time then rows + [row]
      else if rows[n].time == row.time then rows[..n] + [row]
      else Put(rows[..n], row) + [rows[n]]
  }

  function PutAll(rows: seq<Row>, more: seq<Row>): seq<Row> {
    if more == [] then rows else Put(PutAll(rows, more[..|more| - 1]), more[|more| - 1])
  }

  /** `INSERT … ON CONFLICT DO UPDATE`, all rows in one statement. */
  function Upsert(table: Table, s: Series, rows: seq<Row>): Table {
    if rows == [] then table else table[s := PutAll(RowsOf(table, s), rows)]
  }

  // ---------------------------------------------------------------- one request

  predicate HaveEnough(rows: seq<Row>, limit: nat) {
    |rows| >= limit / 2
  }

  /** Is the request answered from the cache alone? */
  predicate Hit(rows: seq<Row>, limit: nat, tf: int, now: int) {
    rows != [] && HaveEnough(rows, limit) && !IsStale(rows[|rows| - 1].time, tf, now)
  }

  /** Is only the tail after the newest cached bar fetched, rather than the whole window? */
  predicate TailOnly(rows: seq<Row>, limit: nat, tf: int, now: int)
    requires tf > 0
  {
    rows != [] && HaveEnough(rows, limit) && CeilDiv(now - rows[|rows| - 1].time, tf) <= limit
  }

  function FetchStart(rows: seq<Row>, limit: nat, tf: int, now: int): int
    requires tf > 0
  {
    if TailOnly(rows, limit, tf, now) then rows[|rows| - 1].time - tf else now - tf * (limit + 5)
  }

  /** The bars a refresh works with: fetched on `[start, now)`, the forming bar dropped. */
  function ClosedFrame(fetch: (int, int) -> Fetched, start: int, tf: int, now: int): Fetched {
    match fetch(start, now)
    case Failed => Failed
    case Frame(rows) => Frame(DropFormingBar(rows, tf, now))
  }

  /** What one session returns for `row` once it holds the rows `held`: a row it holds already is not loaded
      again, even if the upsert has changed its values since. */
  function Held(held: seq<Row>, row: Row): Row {
    if held == [] then row
    else if held[|held| - 1].time == row.time then held[|held| - 1]
    else Held(held[..|held| - 1], row)
  }

  function Loaded(held: seq<Row>, rows: seq<Row>): (r: seq<Row>)
    ensures |r| == |rows|
  {
    if rows == [] then [] else Loaded(held, rows[..|rows| - 1]) + [Held(held, rows[|rows| - 1])]
  }

  /** The second read of a refresh, in the session that still holds the rows of the first. */
  function ReadAgain(table: Table, table': Table, s: Series, limit: nat): seq<Row> {
    Loaded(Read(table, s, limit), Read(table', s, limit))
  }

  /** The new table and the response of a refresh that fetched `fetched`. `written` says whether the upsert succeeds. */
  function AfterRefresh(table: Table, s: Series, limit: nat, now: int, fetched: Fetched, written: bool)
    : (Table, Response)
  {
    match fetched
    case Failed => (table, Unavailable)
    case Frame(frame) =>
      if frame == [] then (table, Unavailable)
      else if !written then (table, Served(LastRows(frame, limit)))
      else
        var table' := Upsert(table, s, frame);
        var again := ReadAgain(table, table', s, limit);
        if again != [] && !IsStale(again[|again| - 1].time, TfDelta(s.timeframe), now) then (table', Served(again))
        else (table', Served(LastRows(frame, limit)))
  }

  /** `get_candles`: the new table and the response. */
  function Respond(table: Table, s: Series, limit: nat, now: int, fetch: (int, int) -> Fetched, written: bool)
    : (Table, Response)
  {
    var tf := TfDelta(s.timeframe);
    var rows := Read(table, s, limit);
    if Hit(rows, limit, tf, now) then (table, Served(rows))
    else AfterRefresh(table, s, limit, now, ClosedFrame(fetch, FetchStart(rows, limit, tf, now), tf, now), written)
  }

  // ---------------------------------------------------------------- the router

  class CandleCache {
    var table: Table

    constructor ()
      ensures table == map[]
    {
      table := map[];
    }

    /** The loop of `_contiguous_tail`: walk back from the newest row, stop at the first hole. */
    static method ContiguousTail(rows: seq<Row>, tf: int) returns (tail: seq<Row>)
      ensures tail == UnbrokenTail(rows, tf)
    {
      var cut := 0;
      var i := |rows| - 1;
      while i > 0
        invariant cut == 0 && i < |rows|
        invariant rows != [] ==> 0 <= i && TailCut(rows, tf, i + 1) == TailCut(rows, tf, |rows|)
        decreases i
      {
        if 2 * (rows[i].time - rows[i - 1].time) > 3 * tf {
          cut := i;
          break;
        }
        i := i - 1;
      }
      tail := rows[cut..];
    }

    method ReadSeries(s: Series, limit: nat) returns (rows: seq<Row>)
      ensures rows == Read(table, s, limit)
    {
      var selected := Select(table, s, limit);
      rows := ContiguousTail(selected, TfDelta(s.timeframe));
    }

    /** `_persist`. A failed write rolls back: the table is as before. */
    method Persist(s: Series, rows: seq<Row>, written: bool) returns (ok: bool)
      modifies this
      ensures ok <==> rows == [] || written
      ensures table == if ok then Upsert(old(table), s, rows) else old(table)
    {
      if rows == [] {
        return true;
      }
      if written {
        table := Upsert(table, s, rows);
      }
      return written;
    }

    /** Where the refresh starts fetching: at the bar before the newest cached one when only a tail no wider
        than the served window is missing, else a whole window and five bars back. */
    static method RefreshStart(rows: seq<Row>, limit: nat, tf: int, now: int) returns (start: int)
      requires tf > 0
      ensures start == FetchStart(rows, limit, tf, now)
    {
      if rows == [] || !HaveEnough(rows, limit) {
        start := now - tf * (limit + 5);
      } else {
        var newest := rows[|rows| - 1].time;
        var missing := CeilDiv(now - newest, tf);
        start := if missing <= limit then newest - tf else now - tf * (limit + 5);
      }
    }

    /** The second half of `get_candles`: what follows the fetch. `held` are the rows of the first read. */
    method Refresh(s: Series, limit: nat, now: int, held: seq<Row>, fetched: Fetched, written: bool)
      returns (response: Response)
      requires held == Read(table, s, limit)
      modifies this
      ensures (table, response) == AfterRefresh(old(table), s, limit, now, fetched, written)
    {
      if fetched == Failed || fetched.rows == [] {
        return Unavailable;
      }
      var persisted := Persist(s, fetched.rows, written);
      if persisted {
        var rows := ReadSeries(s, limit);
        rows := Loaded(held, rows);
        if rows != [] && !IsStale(rows[|rows| - 1].time, TfDelta(s.timeframe), now) {
          return Served(rows);
        }
      }
      return Served(LastRows(fetched.rows, limit));
    }

    /** `get_candles`. A served list is a 200 answer, `Unavailable` the 503. */
    method GetCandles(s: Series, limit: nat, now: int, fetch: (int, int) -> Fetched, written: bool)
      returns (response: Response)
      requires 1 <= limit <= 2000
      modifies this
      ensures (table, response) == Respond(old(table), s, limit, now, fetch, written)
    {
      var tf := TfDelta(s.timeframe);
      var rows := ReadSeries(s, limit);
      if rows != [] && HaveEnough(rows, limit) && !IsStale(rows[|rows| - 1].time, tf, now) {
        return Served(rows);
      }
      var start := RefreshStart(rows, limit, tf, now);
      response := Refresh(s, limit, now, rows, ClosedFrame(fetch, start, tf, now), written);
    }
  }
}
