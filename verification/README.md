# Verified model of the trading backend's stateful cores

This project models parts of a crypto trading backend whose correctness rests on state, time or
order, and proves what those parts are for:

- **The candle cache** (`Candles`, `CandleAgreement`, `CandleAnswers`, `CandleTheorems`, `Klines`): a table of
  closed bars refreshed from the exchange page by page. Every 200 answer is a run of the exchange's own closed
  bars, over any run of requests, with pages and writes failing and another writer at work; when it ends at the
  newest closed bar, when it is stale and when it is too short are each characterised exactly.
- **The AI circuit breaker** (`CircuitBreaker`): a class whose five fields are proved to be a function of
  the trace of calls; only five consecutive failures trip it; the probe rate after a trip is bounded, and the
  bound is attained.
- **The WebSocket ticket store** (`WsTickets`, `WsTicketRuns`): single use as a conservation law, and an
  exact condition for acceptance with fresh tokens and a clock that never goes back.
- **The `decision_records` migration chain** (`DecisionVocabulary`, `Migrations`, `MigrationTheorems`):
  each revision's statements, in order, against a database that enforces its constraints; safety over every
  interleaving of upgrades, downgrades and writes; when a downgrade refuses; what a round trip destroys.
- **The rule-coverage tooling** (`WordWrap`, `BlockChain`, `CoverageCounts`): the greedy wrap is optimal, the
  block-chain walk is the first-blocker path on any table, and however rule classes register themselves, the
  report's thirteen self-checks hold.
- **The CFT bridge** (`CftBridge`, `CftGuard`, `UrlResolution`): session, retry protocol and write guard, with an
  arbitrary clock and login; which requests the guard lets through to a write path, once the browser has parsed
  the URL it is handed.
- **Series arithmetic** (`Cadence`, `EquityCurve`, `Dominance`): the median cadence is robust, the one-pass
  drawdown is the worst fall, dominance conserves market cap.
- **Row redaction** (`Redaction`): a bounded walk over shared and cyclic object graphs, cut exactly where it would
  enter an object a second time.

Objects the source updates in place are classes whose methods are proved against a specification function
or a ghost trace; what the source promises is proved about those. Clock readings, network answers, tokens
and write failures are parameters or arbitrary values, so every theorem holds for all of them.

Where the code does not do what its documentation says, the code is kept, the exact condition is proved and an
input that fails it is shown:

- `candles.py` promises that stale bars are never served silently; they are, exactly when the fetched frame
  itself ends in a stale bar and no fresher cached bar can be read back (`StaleServedExactly`). `binance.py`
  makes that happen: a page that fails after the first one ends the fetch without failing it. A request for up
  to 995 bars needs one page and is never answered short (`OnePageSuffices`); from 997 on a failed second page
  is answered with stale bars, at 996 with bars one interval short (`SecondPageNeeded`).
- A cache hit can end one bar short of the newest closed bar, at one instant (`HitOneShortExactly`,
  `HitOneShort`), and a tail refresh whose write fails can answer with four bars where two thousand were asked
  for and cached (`LongEnoughExactly`, `ShortAnswer`).
- `candles.py` says a bar written by an older version is corrected on the next refresh. It is in the table; the
  refresh itself still answers with the old values, because its session holds the rows it has read, exactly when
  it had read the bar before correcting it (`RefreshThenHit`, `CorrectionServedLate`).
- `circuit_breaker.py` says a half-open breaker allows its one probe; a probe that is never recorded leaves it
  refusing everything for ever, whatever the clock says (`StuckUntilRecorded`, `StuckRun`).
- The backfills of 0007 and 0010 are described as true of the old rows; after a downgrade and a second
  upgrade they are true exactly of the rows `DownThenUpExactly` names (`AttributionLost`, `CodeLost`). The mark
  0008's downgrade leaves is detectable exactly under the condition of `RejectedStayDetectableExactly`, which
  a second round trip breaks (`RewriteMistaken`).
- `bridge.py` says its write guard blocks a GET to a write path. It tests the path as given; the bridge adds a
  leading slash afterwards, and the browser drops tabs and newlines, reads `\` as `/` and resolves dot segments.
  Whether what is requested carries a write fragment depends on the path alone, whatever the account; for a path
  with nothing to drop or resolve it does exactly if the path lacks its slash (`GuardMissesExactly`). Both ways to
  fail are shown (`SlashlessOrder`, `DotSegmentOpen`).
- `prop_firm.py` says sets keep their kind and the 409 always answers; a set keeps its kind, and redaction does
  not raise, exactly under the conditions of `KindKeptExactly` and `WalkRaisesExactly`, on any graph however deep
  or cyclic (`NestedFrozensetRaises`).

`dafny verify dfyconfig.toml` checks the project.

## Model

| member | source | states |
|---|---|---|
| `Candles.CandleCache.ContiguousTail` | backend/app/api/routers/candles.py:187-211 | the backward loop returns the rows from the last hole wider than 1.5 intervals on |
| `Candles.CandleCache.ReadSeries` | backend/app/api/routers/candles.py:214-227 | the newest `limit` rows of the series, oldest first, trimmed to the unbroken tail |
| `Candles.CandleCache.Persist` | backend/app/api/routers/candles.py:130-173 | a successful write upserts every row, a failed one leaves the table as it was, no rows count as success |
| `Candles.CandleCache.RefreshStart` | backend/app/api/routers/candles.py:248-260 | where the refetch starts: one bar before the newest cached one, or a whole window and five bars back |
| `Candles.CandleCache.Refresh` | backend/app/api/routers/candles.py:264-285 | 503 without a frame; else the read-back if it is not stale, else the frame's last `limit` rows |
| `Candles.CandleCache.GetCandles` | backend/app/api/routers/candles.py:230-285 | new table and answer of a request, tied to the specification the theorems below are about |
| `CandleAgreement.ClosedIs` | backend/app/api/routers/candles.py:112-127 | which bars have closed at an instant: those whose interval has ended |
| `CandleAgreement.FrameIsClosedBars` | backend/app/api/routers/candles.py:112-127 | dropping the forming bar by its own open time leaves exactly the closed bars among those that arrived |
| `CandleAgreement.CutIsLastHole` | backend/app/api/routers/candles.py:200-211 | the cut is the last hole: none after it, one at it unless it is the first row |
| `CandleAgreement.UnbrokenIsConsecutive` | backend/app/api/routers/candles.py:187-211 | on a gap-free grid the 1.5-interval test leaves consecutive bars and nothing else |
| `CandleAgreement.ReadIsConsecutive` | backend/app/api/routers/candles.py:214-227 | a read is a run of at most `limit` consecutive source bars ending at the newest stored row |
| `CandleAgreement.PutAllAgrees` | backend/app/api/routers/candles.py:130-168 | upserting closed source bars keeps the store invariant and loses no row |
| `CandleAgreement.TopRows` | backend/app/api/routers/candles.py:214-227 | bars that are all stored from some bar up are the last rows of the series |
| `CandleTheorems.CacheAgreement` | backend/app/api/routers/candles.py:230-285 | one request, the exchange answering any prefix of the window: the store still agrees with the source, and every 200 answer is a run of consecutive closed bars that ends at the newest exactly if that was cached, in the frame, or stored and read back |
| `CandleTheorems.EveryAnswerFaithful` | backend/app/api/routers/candles.py:230-285 | the same over whole runs of any series, limits, failed and truncated fetches, failed writes and another writer |
| `CandleTheorems.HitOneShortExactly` | backend/app/api/routers/candles.py:92-101 | a hit ends at the newest closed bar or one before it, the latter exactly at `newest + 2 * tf` |
| `CandleTheorems.UnavailableExactly` | backend/app/api/routers/candles.py:262-272 | a miss answers 503 exactly when the fetch fails, nothing arrives or no bar has ever closed |
| `CandleTheorems.WholeWindowExact` | backend/app/api/routers/candles.py:253-285 | a whole-window refresh that reaches the newest closed bar answers exactly the last `limit` closed bars, written or not; an unwritten one only then |
| `CandleTheorems.TailRefreshExtends` | backend/app/api/routers/candles.py:255-285 | a written tail refresh gives up nothing the cache held; an unwritten one, or one that leaves the table stale, answers from the tail alone |
| `CandleTheorems.LongEnoughExactly` | backend/app/api/routers/candles.py:243-285 | an answer whose frame reaches the newest bar has half the bars asked for, or all there are, exactly if it was cached, written, a whole window, or its tail alone suffices |
| `CandleTheorems.FetchBounded` | backend/app/api/routers/candles.py:248-260 | a refresh never asks for more than `limit + 5` closed bars: a gap wider than the window costs one window |
| `CandleAnswers.RefreshThenHit` | backend/app/api/routers/candles.py:243-246 | with any exchange at all: a written refresh turns the same request into a hit, at the same times, exactly if its answer was not stale and had half the rows asked for; with the same values exactly if it corrected none of the cached rows it answered with |
| `CandleAnswers.CorrectionServedLate` | backend/app/api/routers/candles.py:274-278 | a half-formed bar that a refresh corrects in the table and still answers with |
| `CandleAnswers.UpsertReplaces` | backend/app/api/routers/candles.py:130-168 | a row written earlier is corrected, rows at other times stay, one row per time, whatever was stored before |
| `CandleAnswers.StaleServedExactly` | backend/app/api/routers/candles.py:36-40 | with any exchange at all: exactly when a 200 answer is stale |
| `CandleAnswers.AnsweredWithoutExchange` | backend/app/api/routers/candles.py:243-246 | when every fetch fails: 200 exactly if the cached unbroken run has `limit / 2` rows and ends no more than two intervals ago, and then that run |
| `CandleAnswers.ServedFromCache` | backend/app/api/routers/candles.py:243-246 | such a run is served as it stands, whatever the exchange would say, and the table is left alone |
| `CandleAnswers.FetchStartExactly` | backend/app/api/routers/candles.py:253-260 | one interval before the newest cached bar if half of the rows are there and at most `limit` intervals are missing, else `limit + 5` intervals ago |
| `Klines.FetchOhlcv` | backend/app/services/market_data/sources/binance.py:67-126 | the paging loop returns the window's bars up to the first page that fails, and nothing else |
| `Klines.ExchangeAnswers` | backend/app/services/market_data/sources/binance.py:67-126 | whichever pages fail, a fetch answers with a prefix of the window asked for |
| `Klines.FrameReachesExactly` | backend/app/services/market_data/sources/binance.py:79-99 | a refresh reaches a given closed bar exactly if every page up to that bar's arrives |
| `Klines.OnePageSuffices` | backend/app/services/market_data/sources/binance.py:30 | up to 995 bars come in one page: a miss is answered exactly if that page arrives, and ends at the newest closed bar |
| `Klines.SecondPageNeeded` | backend/app/api/routers/candles.py:274-285 | for every limit from 996 on, an answer short of the newest closed bar, stale from 997 on, because a second page failed |
| `Klines.HitOneShort` | backend/app/api/routers/candles.py:243-246 | for every limit, a hit one bar short |
| `Klines.ShortAnswer` | backend/app/api/routers/candles.py:274-285 | for every limit from 10 on, a table full of bars and an answer of four |
| `Klines.IntervalsAgree` | backend/app/services/market_data/sources/binance.py:26-29 | the cache and the client take every timeframe to be equally long; one the client does not know is an hour in the cache |
| `Klines.UnknownTimeframe` | backend/app/services/market_data/sources/binance.py:67-71 | a timeframe the client does not know is answered from the cache alone or with 503 |
| `CircuitBreaker.Breaker.RecordSuccess` | backend/app/services/ai/circuit_breaker.py:61-67 | the fields stay a function of the trace |
| `CircuitBreaker.Breaker.RecordFailure` | backend/app/services/ai/circuit_breaker.py:69-83 | the fields stay a function of the trace: count of failures since the last success, state, cooldown start, probe |
| `CircuitBreaker.Breaker.AllowRequest` | backend/app/services/ai/circuit_breaker.py:85-114 | the answer is what the trace determines; the defensive branch is unreachable |
| `CircuitBreaker.Breaker.IsOpen` | backend/app/services/ai/circuit_breaker.py:42-55 | true exactly when a request would be refused and no probe is out |
| `CircuitBreaker.ProbeRate` | backend/app/services/ai/circuit_breaker.py:69-114 | after a trip at T and no success since, the k-th admitted request comes no earlier than T + 60k |
| `CircuitBreaker.ProbeCount` | backend/app/services/ai/circuit_breaker.py:69-114 | at most floor(D / 60) requests are admitted in the first D seconds |
| `CircuitBreaker.ProbeRateAttained` | backend/app/services/ai/circuit_breaker.py:94-106 | for every number of probes some run meets that bound with equality |
| `CircuitBreaker.StuckUntilRecorded` | backend/app/services/ai/circuit_breaker.py:85-114 | with a probe out every request is refused, at any time, until something is recorded |
| `CircuitBreaker.StuckRun` | backend/app/services/ai/circuit_breaker.py:94-114 | a run from the empty trace, after any number of failed probes, that ends stuck |
| `CircuitBreaker.ReleasedByRecord` | backend/app/services/ai/circuit_breaker.py:61-83 | a success releases at once, a failure exactly 60 seconds later |
| `CircuitBreaker.AdmitsUpToFive` | backend/app/services/ai/circuit_breaker.py:61-92 | only consecutive failures count: after a success, or from the start, every request is admitted at any time while fewer than five failures have been recorded |
| `CircuitBreaker.FifthTrips` | backend/app/services/ai/circuit_breaker.py:69-106 | the fifth refuses every request for exactly 60 seconds |
| `CircuitBreaker.ChangesNothing` | backend/app/services/ai/circuit_breaker.py:69-114 | a refused request, one admitted while closed, and a failure while open leave every later answer as it was |
| `CircuitBreaker.RemembersLatest` | backend/app/services/ai/circuit_breaker.py:61-72 | the failure time kept is that of the latest failure until a success forgets it |
| `WsTickets.TicketStore.Prune` | backend/app/core/ws_tickets.py:24-26 | collecting the expired keys and popping them leaves exactly the live entries, in order |
| `WsTickets.TicketStore.Mint` | backend/app/core/ws_tickets.py:29-39 | prune, evict the first soonest-expiring entry if full, assign the token its expiry |
| `WsTickets.TicketStore.Consume` | backend/app/core/ws_tickets.py:42-49 | true exactly if the ticket is there and unexpired; it is gone afterwards, with everything expired |
| `WsTicketRuns.BoundedAlways` | backend/app/core/ws_tickets.py:20-39 | never more than 1000 entries, for any tokens and any clock |
| `WsTicketRuns.SingleUse` | backend/app/core/ws_tickets.py:42-49 | acceptances of a ticket never exceed its mints, for any tokens and any clock |
| `WsTicketRuns.AcceptedWithinTtl` | backend/app/core/ws_tickets.py:42-49 | an accepted ticket was minted at most 30 seconds before and not presented since |
| `WsTicketRuns.Provenance` | backend/app/core/ws_tickets.py:29-49 | every stored entry comes from a mint, with that mint's expiry, and was not presented since |
| `WsTicketRuns.MintEvictsOldest` | backend/app/core/ws_tickets.py:33-36 | expiry order is insertion order, so eviction removes the oldest survivor and nothing else |
| `WsTicketRuns.ConsumeLeavesOthers` | backend/app/core/ws_tickets.py:42-49 | consuming one ticket invalidates no other live one |
| `WsTicketRuns.ConsumeLeavesExactly` | backend/app/core/ws_tickets.py:42-49 | an empty ticket is refused and changes nothing; any other leaves exactly the unexpired entries of the other tickets |
| `WsTicketRuns.MintLeavesExactly` | backend/app/core/ws_tickets.py:29-39 | the new ticket, good for 30 seconds, behind the unexpired entries, all but the oldest if there were a thousand |
| `WsTicketRuns.Survives` | backend/app/core/ws_tickets.py:29-39 | an unpresented ticket outlives every run within its 30 seconds that does not fill the table behind it |
| `WsTicketRuns.AcceptedExactly` | backend/app/core/ws_tickets.py:29-49 | after at most 999 later mints a ticket is accepted if and only if it is in time and was not presented |
| `WsTicketRuns.SurvivalBoundTight` | backend/app/core/ws_tickets.py:33-36 | a thousand later mints do push a ticket out |
| `Migrations.DowngradeTargets` | backend/alembic/versions/0011_rejection_code_transport.py:44-45 | a target computed by leaving out the revision's own code is what the predecessor created (0011, 0012, 0014, 0015, 0016) |
| `Migrations.VocabulariesGrow` | backend/alembic/versions/0016_rejection_code_kill_switch_armed.py:8-11 | every revision only widens |
| `Migrations.HeadIsModel` | backend/app/models/decision_record.py:103-113 | the head's CHECKs are the live model's outcome, code and decider sets |
| `Migrations.Migrator.SwapOutcomeCheck` | backend/alembic/versions/0013_outcome_unsized_fill.py:67-86 | drop and recreate succeeds exactly when every stored row satisfies the new CHECK |
| `Migrations.Migrator.SwapCodeCheck` | backend/alembic/versions/0011_rejection_code_transport.py:60-83 | the same for the rejection-code CHECK |
| `Migrations.Migrator.Upgrade0004` | backend/alembic/versions/0004_engine_runs.py:57-94 | add the column, adopt every row without a run into the legacy one |
| `Migrations.Migrator.Upgrade0007` | backend/alembic/versions/0007_decision_attribution.py:90-137 | add columns with the UNSET default, backfill ICT, create both CHECKs: succeeds and does what the revision is meant to |
| `Migrations.Migrator.Downgrade0007` | backend/alembic/versions/0007_decision_attribution.py:140-150 | drops the CHECKs and columns |
| `Migrations.Migrator.Downgrade0006` | backend/alembic/versions/0006_decision_outcome_abandoned.py:58-71 | rewrite ABANDONED to OPEN, then narrow |
| `Migrations.Migrator.Downgrade0008` | backend/alembic/versions/0008_decision_outcome_rejected.py:97-119 | rewrite REJECTED to ABSTAINED, narrow, then drop the four columns |
| `Migrations.Migrator.Upgrade0008` | backend/alembic/versions/0008_decision_outcome_rejected.py:59-94 | add four nullable columns, widen the outcome CHECK: always succeeds |
| `Migrations.Migrator.Upgrade0010` | backend/alembic/versions/0010_decision_rejection_code.py:81-107 | add the column, mark the uncoded rejections, close the vocabulary |
| `Migrations.Migrator.Downgrade0010` | backend/alembic/versions/0010_decision_rejection_code.py:110-115 | drops the CHECK and the column |
| `Migrations.Migrator.RetypeQuantities` | backend/alembic/versions/0017_outcome_submitting_quantity_scale.py:125-132 | the loop over the two quantity columns succeeds exactly when every converted value fits |
| `Migrations.Migrator.Upgrade0017` | backend/alembic/versions/0017_outcome_submitting_quantity_scale.py:135-138 | two CHECK swaps and the rescale always succeed |
| `Migrations.Migrator.Downgrade0017` | backend/alembic/versions/0017_outcome_submitting_quantity_scale.py:141-145 | narrow the quantities, then the CHECKs, or refuse |
| `Migrations.Migrator.Upgrade` | backend/alembic/versions/0012_rejection_code_min_size.py:67-75 | applying any next revision of the chain succeeds and yields exactly the revision's schema and rows |
| `Migrations.Migrator.Downgrade` | backend/alembic/versions/0014_rejection_code_protection.py:90-104 | reverting any revision yields exactly the predecessor or refuses |
| `Migrations.Migrator.UpgradeTo` | backend/alembic/env.py:65-71 | an upgrade command never fails |
| `Migrations.Migrator.DowngradeTo` | backend/alembic/env.py:65-71 | one transaction: a downgrade command refused on the way changes nothing |
| `Migrations.Migrator.Write` | backend/app/models/decision_record.py:631-669 | a write is stored exactly when every CHECK and type of the current revision admits it |
| `Migrations.UpgradedConsistent` | backend/alembic/versions/0017_outcome_submitting_quantity_scale.py:18-27 | every upgrade leaves every row legal under the wider schema |
| `MigrationTheorems.AlwaysConsistent` | backend/alembic/env.py:65-71 | under any interleaving of upgrades, downgrades and writes every row satisfies the current revision's CHECKs |
| `MigrationTheorems.UpgradeHeadIsModel` | backend/app/models/decision_record.py:232-255 | from any reachable state the head lands on the live model's vocabularies |
| `MigrationTheorems.DowngradeRefusesExactly` | backend/alembic/versions/0013_outcome_unsized_fill.py:77-86 | a downgrade refuses exactly when a row carries what the revision added and nothing rewrites, or a quantity overflows |
| `MigrationTheorems.CommandRefusesExactly` | backend/alembic/env.py:65-71 | a downgrade command over any number of revisions is refused exactly when some stored row blocks one of them |
| `MigrationTheorems.OutcomeAddedAt` | backend/alembic/versions/0008_decision_outcome_rejected.py:33-44 | each revision adds exactly the outcome it is named for |
| `MigrationTheorems.CodeAddedAt` | backend/alembic/versions/0015_rejection_code_venue_ended_unfilled.py:32-45 | each revision adds exactly one rejection code |
| `MigrationTheorems.UpThenDown` | backend/alembic/versions/0017_outcome_submitting_quantity_scale.py:18-34 | upgrading and reverting is the identity at every revision |
| `MigrationTheorems.CommandUpThenDown` | backend/alembic/env.py:65-71 | an upgrade command over any number of revisions, reverted, is the identity |
| `MigrationTheorems.DownThenUpExactly` | backend/alembic/versions/0007_decision_attribution.py:109-123 | reverting and reapplying restores the content, the plain columns 0003, 0004, 0008 and 0017 add included, exactly when every row survives it |
| `MigrationTheorems.UpgradeTouches` | backend/alembic/versions/0010_decision_rejection_code.py:87-97 | 0007 makes old rows ICT; 0010 marks exactly the rejections; 0004 adopts old rows into the legacy run; 0017 rescales quantities; no other upgrade changes an outcome, code, attribution, quantity or plain column |
| `MigrationTheorems.DowngradeTouches` | backend/alembic/versions/0006_decision_outcome_abandoned.py:58-71 | what each downgrade does to a stored row: ABANDONED to OPEN at 0006, REJECTED to ABSTAINED at 0008, attribution dropped at 0007, code at 0010, quantity to the nearest six places at 0017, all else as it was |
| `MigrationTheorems.DowngradeDropsColumns` | backend/alembic/versions/0008_decision_outcome_rejected.py:97-119 | a downgrade drops exactly the plain column its revision added and keeps the values of the others |
| `MigrationTheorems.RevisionsKeepRows` | backend/alembic/versions/0017_outcome_submitting_quantity_scale.py:125-132 | no revision gains or loses a row; lot sizes change at 0017 only |
| `MigrationTheorems.AdmittedExactly` | backend/app/models/decision_record.py:631-669 | which rows a revision can store, outcome by outcome, code by code and in size |
| `MigrationTheorems.WritesTouchOne` | backend/app/models/decision_record.py:631-669 | an admitted write changes its own row or trade and nothing else |
| `MigrationTheorems.RejectedStayDetectableExactly` | backend/alembic/versions/0008_decision_outcome_rejected.py:97-108 | exactly when the rows 0008's downgrade rewrote can be told apart afterwards |
| `MigrationTheorems.AttributionLost` | backend/alembic/versions/0007_decision_attribution.py:109-123 | a run from the empty database after which a rule engine's decision reads as ICT's |
| `MigrationTheorems.CodeLost` | backend/alembic/versions/0010_decision_rejection_code.py:93-97 | a run after which a coded rejection reads as a legacy one |
| `MigrationTheorems.RewriteMistaken` | backend/alembic/versions/0008_decision_outcome_rejected.py:97-108 | a run after which a row rewritten long ago reads like one just rewritten |
| `MigrationTheorems.NarrowFitsExactly` | backend/alembic/versions/0017_outcome_submitting_quantity_scale.py:24-30 | the only overflow is rounding up past the twelfth integer digit |
| `MigrationTheorems.NarrowRounds` | backend/alembic/versions/0017_outcome_submitting_quantity_scale.py:29-30 | narrowing moves a quantity by at most half of 1e-6, to the nearest six-place value |
| `MigrationTheorems.WidenFits` | backend/alembic/versions/0017_outcome_submitting_quantity_scale.py:24-27 | widening keeps the value and its twelve integer digits |
| `WordWrap.SplitJoin` | scripts/check_rule_coverage.py:81-93 | splitting joined words gives the words back |
| `WordWrap.SplitAtSpace` | scripts/check_rule_coverage.py:84 | any whitespace separates: splitting a text is splitting what stands before and after it |
| `WordWrap.LaidOut` | scripts/check_rule_coverage.py:81-93 | however lines of text space their words out, the words are laid out in no more lines |
| `WordWrap.StaysAhead` | scripts/check_rule_coverage.py:81-93 | after any number of lines greedy has placed at least as many words as any layout |
| `WordWrap.GreedyOptimal` | scripts/check_rule_coverage.py:81-93 | no layout of the same words uses fewer lines |
| `WordWrap.Wrap` | scripts/check_rule_coverage.py:81-93 | the lines carry the text's words in order, only a single over-long word exceeds the width, and no layout, nor any other lines of text with the same words, takes fewer lines |
| `BlockChain.ChainIs` | scripts/check_rule_coverage.py:96-158 | on any table the walk returns the first-blocker path to an unblocked rule, a blocker not followed, or a marked repeat |
| `BlockChain.ChainUnique` | scripts/check_rule_coverage.py:96-158 | there is only one such path |
| `BlockChain.SingleMeansUnblocked` | scripts/check_rule_coverage.py:99-102 | a single-element chain means exactly that the rule declares no blocker |
| `BlockChain.ChainBounded` | scripts/check_rule_coverage.py:96-158 | never longer than the number of implementations plus one |
| `CoverageCounts.RuleBase.Define` | backend/app/services/rules/base.py:186-223 | defining a class raises exactly for an id that is empty, unknown, an alias or taken, and otherwise registers it under its id and every alias; nothing is left half registered |
| `CoverageCounts.TakesExactly` | backend/app/services/rules/base.py:213-223 | who holds which id once a class is defined: nothing changes for an id held under another name unless both share; else the class takes its id and every alias over, and nothing else changes hands |
| `CoverageCounts.NeverTakenAway` | backend/app/services/rules/base.py:213-223 | an id held by a class that does not share stays under that name, whatever is defined later |
| `CoverageCounts.AlwaysFaithful` | backend/app/services/rules/base.py:186-223 | after any class definitions what is implemented is registered and closed under aliasing |
| `CoverageCounts.AlwaysConsistent` | scripts/check_rule_coverage.py:310-344 | after any class definitions all thirteen self-checks hold |
| `CoverageCounts.DistinctAreCanonical` | scripts/check_rule_coverage.py:56-78 | a distinct count counts every implemented rule once, under the id that is no alias |
| `CoverageCounts.BlockedAreCanonical` | scripts/check_rule_coverage.py:273-281 | so is what cannot fire: once for every implemented rule whose class says so |
| `CoverageCounts.CollapseSize` | scripts/check_rule_coverage.py:56-78 | collapsing aliases never increases a count |
| `CftGuard.FragmentAnywhereTrips` | deploy/cft-bridge/bridge.py:102-134 | a write fragment trips the guard wherever it stands, however cased, whatever the method |
| `CftGuard.GuardTripsExactly` | deploy/cft-bridge/bridge.py:117-134 | the guard lets through exactly a GET, in any letter case or not given, whose lower-cased path contains none of the six fragments |
| `CftGuard.UrlCarriesExactly` | deploy/cft-bridge/bridge.py:300-304 | of a path that passes the guard, the string handed to `fetch` carries a fragment exactly if the path lacks the leading slash the fragment begins with |
| `CftGuard.PlainRequest` | deploy/cft-bridge/bridge.py:306-324 | with no tab, newline, backslash, trailing blank or dot segment in the path, the browser requests the string it is handed |
| `CftGuard.AccountIrrelevant` | deploy/cft-bridge/bridge.py:300-324 | for any path at all: whether the request carries a fragment does not depend on the account's uuid |
| `CftGuard.GuardMissesExactly` | deploy/cft-bridge/bridge.py:117-134 | what the guard misses: the path alone decides, and a plain path that passes is requested at a write path exactly if it lacks its slash |
| `CftGuard.SlashlessOrder` | deploy/cft-bridge/bridge.py:300-304 | a GET that passes the guard for lack of a slash and is requested at a write path |
| `CftGuard.DotSegmentOpen` | deploy/cft-bridge/bridge.py:306-324 | one that has its slash and passes by a dot segment |
| `CftBridge.CFTSession.DoLogin` | deploy/cft-bridge/bridge.py:188-246 | a login sets token and uuid together or neither |
| `CftBridge.CFTSession.Ensure` | deploy/cft-bridge/bridge.py:248-269 | logs in exactly when forced, without a session or past its age |
| `CftBridge.CFTSession.DoFetch` | deploy/cft-bridge/bridge.py:300-324 | fetches the request asked for with the session's token, to the URL its uuid makes |
| `CftBridge.CFTSession.Call` | deploy/cft-bridge/bridge.py:272-298 | what the browser is made to do is a call of the retry protocol |
| `CftBridge.CallBounded` | deploy/cft-bridge/bridge.py:280-298 | at most three fetches and three logins, at least one forced login per repeat |
| `CftBridge.DeniedOnlyAfterRetry` | deploy/cft-bridge/bridge.py:289-298 | 401 or 403 is returned only after a denial, a forced login that worked, and a second denial |
| `CftBridge.RepeatedExactly` | deploy/cft-bridge/bridge.py:280-298 | a call goes on only after an exception on its first attempt or a 401 or 403, and a first 401 or 403 is always repeated |
| `CftBridge.FetchesAreTheRequest` | deploy/cft-bridge/bridge.py:272-324 | every fetch of a call is the request asked for |
| `CftBridge.Bridge.HandleCall` | deploy/cft-bridge/bridge.py:367-405 | 401 exactly without authorization, 400 exactly without a path, 200 or 502 exactly if trading is on or the request only asks to read, 403 otherwise; refusals never touch the browser; with trading off every fetch of every run is a GET of a path without a write fragment, and what the browser requests carries one exactly if the path alone makes it, which for a plain path means that it lacks its slash |
| `CftBridge.Bridge.HandleReconnect` | deploy/cft-bridge/bridge.py:408-418 | one forced login, no fetch |
| `Cadence.SortedPermutes` | backend/scripts/collect_dominance.py:354 | the sorted gaps are the gaps |
| `Cadence.MedianRobust` | backend/scripts/collect_dominance.py:342-357 | changing fewer than half of the gaps leaves the median between two unchanged ones |
| `Cadence.HalfIsTooMany` | backend/scripts/collect_dominance.py:342-357 | and no further: whatever the gaps, moving half of them (one more of an odd number) puts the median at any target |
| `Cadence.IntervalExactly` | backend/scripts/collect_dominance.py:342-357 | nothing is inferred exactly for fewer than two samples or a median of zero; else it lies between two of the gaps |
| `Cadence.IntervalIsMiddle` | backend/scripts/collect_dominance.py:352-357 | the value is the middle of the series' own consecutive differences, or the mean of the two middle ones, in whatever way they were put in order |
| `EquityCurve.Stats` | frontend/src/pages/ReportPage.tsx:95-112 | curve, worst drop from a running peak, gross win the sum of the positive trades and gross loss of the negative ones, and final balance = start + win - loss |
| `EquityCurve.PeakIsHighest` | frontend/src/pages/ReportPage.tsx:107 | the running peak is the highest balance so far, the start included |
| `EquityCurve.DrawdownIs` | frontend/src/pages/ReportPage.tsx:107-108 | for any start: the largest share by which a balance falls short of the highest one before it, counted from highs above zero only, and attained |
| `EquityCurve.WorstFall` | frontend/src/pages/ReportPage.tsx:107-108 | with a positive start and no negative balance the figure is the worst earlier-to-later relative fall, in [0, 1] |
| `EquityCurve.ZeroExactly` | frontend/src/pages/ReportPage.tsx:107-108 | it is zero exactly when no trade loses |
| `EquityCurve.AtMostOneExactly` | frontend/src/pages/ReportPage.tsx:107-108 | it is at most 1 exactly if the balance never goes below zero (`BelowZeroExceedsOne`: 150% after losing 150 of 100) |
| `Dominance.Compute` | backend/scripts/collect_dominance.py:254-298 | None exactly for no coins, no prices or a total that is not positive; else the figures in terms of merged caps, and what was accumulated per symbol adds up to the total |
| `Dominance.CoinAdds` | backend/scripts/collect_dominance.py:270-280 | what one more coin adds to the total, to the live part and to its symbol: its supply if a dollar peg, price times supply if listed, else its last known cap |
| `Dominance.Conservation` | backend/scripts/collect_dominance.py:266-282 | the total is the sum over all symbols of their caps with duplicate symbols merged |
| `Dominance.Partition` | backend/scripts/collect_dominance.py:267-280 | the total is the three named caps and the rest |
| `Dominance.SharesBounded` | backend/scripts/collect_dominance.py:286-298 | shares non-negative and at most 100 together, coverage in [0, 100], the totals ordered |
| `Dominance.SameFigures` | backend/scripts/collect_dominance.py:270-298 | two computations over the same coins in different orders come to the same figures |
| `Dominance.ScalesLinearly` | backend/scripts/collect_dominance.py:270-298 | scaling supplies and caps scales the totals and keeps the shares |
| `Redaction.WalkIsRedactOfSeen` | backend/app/api/routers/prop_firm.py:31-59 | on any graph the walk is the plain recursive redaction of what it sees: the graph written out, cut at the bound and at cycles |
| `Redaction.CyclesCutExactly` | backend/app/api/routers/prop_firm.py:43-59 | down any route: the walk goes on exactly while the objects are different and at most 32; a container comes back as the cycle marker exactly if it is one of its own ancestors, at level 32 as the truncation marker |
| `Redaction.NestedBelowContainers` | backend/app/api/routers/prop_firm.py:47-51 | what is seen of a graph nests no deeper than the graph has containers, and never deeper than 32 |
| `Redaction.SelfReference` | backend/app/api/routers/prop_firm.py:49-50 | a row that holds itself is answered with one marker in its place |
| `Redaction.SeenWhole` | backend/app/api/routers/prop_firm.py:47-51 | a value within the bound and on no cycle is seen whole: nothing is cut and sharing is invisible |
| `Redaction.WalkIsRedact` | backend/app/api/routers/prop_firm.py:31-59 | on such a value the walk is its plain recursive redaction |
| `Redaction.WalkRaisesExactly` | backend/app/api/routers/prop_firm.py:38-39 | on any graph, however deep or cyclic: exactly when redaction raises instead of answering |
| `Redaction.RaisesExactly` | backend/app/api/routers/prop_firm.py:54-59 | on a value written out: exactly when rebuilding a set raises |
| `Redaction.WithoutSetsAnswers` | backend/app/api/routers/prop_firm.py:38-39 | a row without sets is always answered, however deep or cyclic |
| `Redaction.WalkAnswers` | backend/app/api/routers/prop_firm.py:31-59 | on any graph what comes back matches what the walk sees item by item: strings redacted, cuts marked, leaves unchanged, lengths and keys kept |
| `Redaction.NoRawString` | backend/app/api/routers/prop_firm.py:31-59 | on any graph every string that comes back is a redacted one or a marker |
| `Redaction.NestedFrozensetRaises` | backend/app/api/routers/prop_firm.py:54-59 | a concrete graph on which the walk raises |
| `Redaction.KindKeptExactly` | backend/app/api/routers/prop_firm.py:51-59 | lists, tuples and dicts keep kind, length and keys; a set keeps its kind exactly when its redacted items are strings (markers too), numbers, bools, None or tuples, and is otherwise answered as a list |

## Left out

- CandleTheorems.CacheAgreement: assumes the exchange lists the series without gaps on its grid, so a pair that stops trading is covered only by the theorems of CandleAnswers, which hold for any exchange; rounding of prices to six places and of the quotient under `math.ceil` is not modelled.
- Candles.CandleCache.Refresh: the rows a session holds are those the first read returned; rows it trimmed off are taken to be released.
- Klines.FetchOhlcv: three mirrors tried in turn are one Boolean per page; the exchange's clock is the request's.
- Candles.CandleCache.ReadSeries: SQL's ordering and limit are modelled on rows kept in primary-key order.
- CandleTheorems.EveryAnswerFaithful: the other writer is any step that stores a closed source bar; CandlePipeline itself, which builds bars from ticks, is not part of this model.
- Migrations.Migrator.Upgrade: revisions 0005 and 0009 change nothing modelled here and are steps without statements; 0003 and 0004 add their columns unconditionally, `engine_runs` and the run of a trade are not part of this model; the COMMIT inside 0009's upgrade matters to no result because no upgrade fails.
- Migrations.Migrator.Write: the signal_dir and cohort CHECKs, which no revision changes, and the columns no revision adds, retypes or rewrites are not part of the row; a plain column's value is text.
- CftBridge.Bridge.HandleCall: upper and lower case are modelled for ASCII letters; authorization is a given Boolean; a path is a string.
- CftGuard.GuardMissesExactly: the URL Standard's parsing is modelled where it moves, merges or drops parts of the path; percent-encoding of other characters, redirects and what the server makes of a path are not.
- CftBridge.CFTSession.DoLogin: driving the browser's form is one arbitrary outcome.
- Dominance.Compute and EquityCurve.Stats: exact reals instead of floating point; the trades of the equity curve arrive filtered and in time order.
- Redaction.WalkIsRedact: a rebuilt set keeps its redacted items as a list; merging equal ones is not modelled.
- WsTickets.TicketStore.Mint: the token and the clock reading are parameters.
- Migration 0018, `close_position`, the SQL de-duplication in `deploy_migrate.py`, the rejection splits in `engine.py` and `groupByImpact`: they would add only easy members.
- The live engine, brokers, rule implementations, HTTP routing, sessions and rendering.
