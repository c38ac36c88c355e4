/** The migration chain 0002 … 0017 on `decision_records` (and the one `trades` column 0017 touches).

    `Migrator` runs each revision's operations in the revision's own order against a database that enforces
    its constraints; a failing operation rolls the command back. `Upgraded` and `Downgraded` say what each
    revision is meant to do, without saying how. */
module Migrations {
  import opened Wrappers
  import opened DecisionVocabulary

  const BASE: nat := 2
  const HEAD: nat := 17

  // ---------------------------------------------------------------- each revision's frozen vocabularies

  const OUTCOMES_AT_0002: set<Outcome> := {WIN, LOSS, BE, OPEN, ABSTAINED}
  const OUTCOMES_AT_0006: set<Outcome> := {WIN, LOSS, BE, OPEN, ABSTAINED, ABANDONED}
  const OUTCOMES_AT_0008: set<Outcome> := {WIN, LOSS, BE, OPEN, ABSTAINED, ABANDONED, REJECTED}
  const OUTCOMES_AT_0013: set<Outcome> := {WIN, LOSS, BE, OPEN, ABSTAINED, ABANDONED, REJECTED, UNSIZED_FILL}
  const OUTCOMES_AT_0017: set<Outcome> :=
    {WIN, LOSS, BE, OPEN, ABSTAINED, ABANDONED, REJECTED, UNSIZED_FILL, SUBMITTING}

  const DECIDED_BY_VALUES_AT_0007: set<Decider> := {UNSET, ICT, RULE_ENGINE}

  const CODES_AT_0010: set<Code> := {
    NO_REFERENCE_PRICE, DEGENERATE_STOP, ENTRY_DRIFT, THROUGH_STOP, NON_POSITIVE_SIZE, VENUE_DIRECTION_UNSUPPORTED,
    PROP_FIRM_TARGET_REACHED, PROP_FIRM_HALTED_DAILY_LOSS, PROP_FIRM_HALTED_MAX_DRAWDOWN, PROP_FIRM_HALTED,
    PROP_FIRM_WOULD_BREACH_DAILY_LOSS, PROP_FIRM_WOULD_BREACH_MAX_DRAWDOWN,
    BROKER_UNAVAILABLE, VENUE_RAISED, UNCODED_LEGACY, UNCLASSIFIED
  }

  const CODES_AT_0011: set<Code> := {
    NO_REFERENCE_PRICE, DEGENERATE_STOP, ENTRY_DRIFT, THROUGH_STOP, NON_POSITIVE_SIZE, VENUE_DIRECTION_UNSUPPORTED,
    PROP_FIRM_TARGET_REACHED, PROP_FIRM_HALTED_DAILY_LOSS, PROP_FIRM_HALTED_MAX_DRAWDOWN, PROP_FIRM_HALTED,
    PROP_FIRM_WOULD_BREACH_DAILY_LOSS, PROP_FIRM_WOULD_BREACH_MAX_DRAWDOWN,
    BROKER_UNAVAILABLE, VENUE_TRANSPORT, VENUE_RAISED, UNCODED_LEGACY, UNCLASSIFIED
  }

  const CODES_AT_0012: set<Code> := {
    NO_REFERENCE_PRICE, DEGENERATE_STOP, ENTRY_DRIFT, THROUGH_STOP, NON_POSITIVE_SIZE, VENUE_DIRECTION_UNSUPPORTED,
    MIN_SIZE,
    PROP_FIRM_TARGET_REACHED, PROP_FIRM_HALTED_DAILY_LOSS, PROP_FIRM_HALTED_MAX_DRAWDOWN, PROP_FIRM_HALTED,
    PROP_FIRM_WOULD_BREACH_DAILY_LOSS, PROP_FIRM_WOULD_BREACH_MAX_DRAWDOWN,
    BROKER_UNAVAILABLE, VENUE_TRANSPORT, VENUE_RAISED, UNCODED_LEGACY, UNCLASSIFIED
  }

  const CODES_AT_0014: set<Code> := {
    NO_REFERENCE_PRICE, DEGENERATE_STOP, ENTRY_DRIFT, THROUGH_STOP, NON_POSITIVE_SIZE, VENUE_DIRECTION_UNSUPPORTED,
    MIN_SIZE, PROTECTION_NOT_ACCEPTED,
    PROP_FIRM_TARGET_REACHED, PROP_FIRM_HALTED_DAILY_LOSS, PROP_FIRM_HALTED_MAX_DRAWDOWN, PROP_FIRM_HALTED,
    PROP_FIRM_WOULD_BREACH_DAILY_LOSS, PROP_FIRM_WOULD_BREACH_MAX_DRAWDOWN,
    BROKER_UNAVAILABLE, VENUE_TRANSPORT, VENUE_RAISED, UNCODED_LEGACY, UNCLASSIFIED
  }

  const CODES_AT_0015: set<Code> := {
    NO_REFERENCE_PRICE, DEGENERATE_STOP, ENTRY_DRIFT, THROUGH_STOP, NON_POSITIVE_SIZE, VENUE_DIRECTION_UNSUPPORTED,
    MIN_SIZE, PROTECTION_NOT_ACCEPTED, VENUE_ENDED_UNFILLED,
    PROP_FIRM_TARGET_REACHED, PROP_FIRM_HALTED_DAILY_LOSS, PROP_FIRM_HALTED_MAX_DRAWDOWN, PROP_FIRM_HALTED,
    PROP_FIRM_WOULD_BREACH_DAILY_LOSS, PROP_FIRM_WOULD_BREACH_MAX_DRAWDOWN,
    BROKER_UNAVAILABLE, VENUE_TRANSPORT, VENUE_RAISED, UNCODED_LEGACY, UNCLASSIFIED
  }

  const CODES_AT_0016: set<Code> := {
    NO_REFERENCE_PRICE, DEGENERATE_STOP, ENTRY_DRIFT, THROUGH_STOP, NON_POSITIVE_SIZE, VENUE_DIRECTION_UNSUPPORTED,
    MIN_SIZE, PROTECTION_NOT_ACCEPTED, VENUE_ENDED_UNFILLED, KILL_SWITCH_ARMED,
    PROP_FIRM_TARGET_REACHED, PROP_FIRM_HALTED_DAILY_LOSS, PROP_FIRM_HALTED_MAX_DRAWDOWN, PROP_FIRM_HALTED,
    PROP_FIRM_WOULD_BREACH_DAILY_LOSS, PROP_FIRM_WOULD_BREACH_MAX_DRAWDOWN,
    BROKER_UNAVAILABLE, VENUE_TRANSPORT, VENUE_RAISED, UNCODED_LEGACY, UNCLASSIFIED
  }

  const CODES_AT_0017: set<Code> := {
    NO_REFERENCE_PRICE, DEGENERATE_STOP, ENTRY_DRIFT, THROUGH_STOP, NON_POSITIVE_SIZE, VENUE_DIRECTION_UNSUPPORTED,
    MIN_SIZE, PROTECTION_NOT_ACCEPTED, VENUE_ENDED_UNFILLED, KILL_SWITCH_ARMED,
    PROP_FIRM_TARGET_REACHED, PROP_FIRM_HALTED_DAILY_LOSS, PROP_FIRM_HALTED_MAX_DRAWDOWN, PROP_FIRM_HALTED,
    PROP_FIRM_WOULD_BREACH_DAILY_LOSS, PROP_FIRM_WOULD_BREACH_MAX_DRAWDOWN,
    BROKER_UNAVAILABLE, VENUE_TRANSPORT, VENUE_RAISED, UNCODED_LEGACY, UNCLASSIFIED,
    SUBMISSION_NOT_FOUND_AFTER_RESTART
  }

  function OutcomesAt(revision: nat): set<Outcome> {
    if revision < 6 then OUTCOMES_AT_0002
    else if revision < 8 then OUTCOMES_AT_0006
    else if revision < 13 then OUTCOMES_AT_0008
    else if revision < 17 then OUTCOMES_AT_0013
    else OUTCOMES_AT_0017
  }

  function CodesAt(revision: nat): set<Code> {
    if revision < 11 then CODES_AT_0010
    else if revision < 12 then CODES_AT_0011
    else if revision < 14 then CODES_AT_0012
    else if revision < 15 then CODES_AT_0014
    else if revision < 16 then CODES_AT_0015
    else if revision < 17 then CODES_AT_0016
    else CODES_AT_0017
  }

  // ---------------------------------------------------------------- the database

  /** The nullable columns that no CHECK, rescale or rewrite concerns and that some revision adds. */
  datatype Column =
    | FILL_PRICE | RUN_ID | REJECTION_REASON | SIZING_EQUITY | SIZING_RISK_PCT | SIZING_PRICE | CLOSE_ATTEMPT_HINT

  /** A stored row. `decidedBy` is None while the attribution columns do not exist; a quantity is an integer
      number of units in the last place of its column's type; `plain` holds the plain columns that are not
      NULL. */
  datatype Row = Row(
    id: nat,
    outcome: Option<Outcome>,
    abstained: bool,
    decidedBy: Option<Decider>,
    ruleId: Option<string>,
    code: Option<Code>,
    sizedUnits: Option<int>,
    plain: map<Column, string>
  )

  /** `Numeric(precision, scale)` of the two quantity columns. */
  datatype Numeric = N18_6 | N21_9

  datatype Schema = Schema(
    columns: set<Column>,
    outcomeCheck: Option<set<Outcome>>,
    attributionColumns: bool,
    deciderCheck: Option<set<Decider>>,
    onlyRuleEngineNames: bool,
    codeColumn: bool,
    codeCheck: Option<set<Code>>,
    sizedUnitsType: Numeric,
    lotSizeType: Numeric
  )

  datatype Db = Db(revision: nat, schema: Schema, rows: seq<Row>, lots: seq<int>)

  const SIZING_COLUMNS: set<Column> := {REJECTION_REASON, SIZING_EQUITY, SIZING_RISK_PCT, SIZING_PRICE}

  /** The run every older decision is adopted into. */
  const LEGACY_RUN := "00000000-0000-0000-0000-000000000001"

  function ColumnsAdded(revision: nat): set<Column> {
    match revision
    case 3 => {FILL_PRICE}
    case 4 => {RUN_ID}
    case 8 => SIZING_COLUMNS
    case 17 => {CLOSE_ATTEMPT_HINT}
    case _ => {}
  }

  function ColumnsAt(revision: nat): set<Column> {
    if revision < 3 then {}
    else if revision < 4 then {FILL_PRICE}
    else if revision < 8 then {FILL_PRICE, RUN_ID}
    else if revision < 17 then {FILL_PRICE, RUN_ID} + SIZING_COLUMNS
    else {FILL_PRICE, RUN_ID} + SIZING_COLUMNS + {CLOSE_ATTEMPT_HINT}
  }

  function SchemaAt(revision: nat): Schema {
    Schema(
      ColumnsAt(revision),
      Some(OutcomesAt(revision)),
      revision >= 7,
      if revision >= 7 then Some(DECIDED_BY_VALUES_AT_0007) else None,
      revision >= 7,
      revision >= 10,
      if revision >= 10 then Some(CodesAt(revision)) else None,
      if revision >= 17 then N21_9 else N18_6,
      if revision >= 17 then N21_9 else N18_6)
  }

  predicate Fits(t: Numeric, v: int) {
    match t
    case N18_6 => -1_000_000_000_000_000_000 < v < 1_000_000_000_000_000_000
    case N21_9 => -1_000_000_000_000_000_000_000 < v < 1_000_000_000_000_000_000_000
  }

  predicate OutcomeOk(check: Option<set<Outcome>>, row: Row) {
    check.Some? && row.outcome.Some? ==> row.outcome.value in check.value
  }

  predicate CodeOk(check: Option<set<Code>>, row: Row) {
    check.Some? && row.code.Some? ==> row.code.value in check.value
  }

  predicate DeciderOk(check: Option<set<Decider>>, row: Row) {
    check.Some? && row.decidedBy.Some? ==> row.decidedBy.value in check.value
  }

  predicate RuleOk(row: Row) {
    row.decidedBy == Some(RULE_ENGINE) || row.ruleId == None
  }

  /** The row can be stored: its columns exist, its values fit their types, and every CHECK admits it. */
  predicate Legal(s: Schema, row: Row) {
    && row.plain.Keys <= s.columns
    && OutcomeOk(s.outcomeCheck, row)
    && (if s.attributionColumns then row.decidedBy.Some? else row.decidedBy == None && row.ruleId == None)
    && DeciderOk(s.deciderCheck, row)
    && (s.onlyRuleEngineNames ==> RuleOk(row))
    && (!s.codeColumn ==> row.code == None)
    && CodeOk(s.codeCheck, row)
    && (row.sizedUnits.Some? ==> Fits(s.sizedUnitsType, row.sizedUnits.value))
  }

  predicate AllLegal(s: Schema, rows: seq<Row>, lots: seq<int>) {
    && (forall i :: 0 <= i < |rows| ==> Legal(s, rows[i]))
    && (forall i :: 0 <= i < |lots| ==> Fits(s.lotSizeType, lots[i]))
  }

  /** The database is at a revision of the chain: exactly its schema, and nothing stored that it forbids. */
  predicate Consistent(db: Db) {
    BASE <= db.revision <= HEAD && db.schema == SchemaAt(db.revision) && AllLegal(db.schema, db.rows, db.lots)
  }

  // ---------------------------------------------------------------- what each revision is meant to do

  /** `Numeric(21, 9)` to `Numeric(18, 6)`: round to six places, halves away from zero. */
  function Narrow(v: int): int {
    if v >= 0 then (v + 500) / 1000 else -((-v + 500) / 1000)
  }

  function Widen(v: int): int {
    v * 1000
  }

  function MapUnits(f: int -> int, v: Option<int>): Option<int> {
    if v.Some? then Some(f(v.value)) else None
  }

  /** What applying `revision` does to a stored row. */
  function UpRow(revision: nat, row: Row): Row {
    if revision == 4 then row.(plain := row.plain[RUN_ID := LEGACY_RUN])
    else if revision == 7 then row.(decidedBy := Some(ICT), ruleId := None)
    else if revision == 10 then row.(code := if row.outcome == Some(REJECTED) then Some(UNCODED_LEGACY) else None)
    else if revision == 17 then row.(sizedUnits := MapUnits(Widen, row.sizedUnits))
    else row
  }

  function WithoutColumns(columns: set<Column>, row: Row): Row {
    row.(plain := row.plain - columns)
  }

  /** What reverting `revision` does to a stored row: the plain columns it added go. */
  function DownRow(revision: nat, row: Row): Row {
    if revision == 3 then WithoutColumns({FILL_PRICE}, row)
    else if revision == 4 then WithoutColumns({RUN_ID}, row)
    else if revision == 6 && row.outcome == Some(ABANDONED) then row.(outcome := Some(OPEN))
    else if revision == 7 then row.(decidedBy := None, ruleId := None)
    else if revision == 8 then WithoutColumns(SIZING_COLUMNS, ReplaceOutcome(REJECTED, ABSTAINED, row))
    else if revision == 10 then row.(code := None)
    else if revision == 17 then
      WithoutColumns({CLOSE_ATTEMPT_HINT}, row.(sizedUnits := MapUnits(Narrow, row.sizedUnits)))
    else row
  }

  function Attributed(row: Row): Row {
    if row.decidedBy == Some(UNSET) then row.(decidedBy := Some(ICT)) else row
  }

  function ReplaceOutcome(from: Outcome, to: Outcome, row: Row): Row {
    if row.outcome == Some(from) then row.(outcome := Some(to)) else row
  }

  function UpRows(revision: nat, rows: seq<Row>): (r: seq<Row>)
    ensures |r| == |rows| && forall i :: 0 <= i < |rows| ==> r[i] == UpRow(revision, rows[i])
  {
    seq(|rows|, i requires 0 <= i < |rows| => UpRow(revision, rows[i]))
  }

  function DownRows(revision: nat, rows: seq<Row>): (r: seq<Row>)
    ensures |r| == |rows| && forall i :: 0 <= i < |rows| ==> r[i] == DownRow(revision, rows[i])
  {
    seq(|rows|, i requires 0 <= i < |rows| => DownRow(revision, rows[i]))
  }

  function MapLots(f: int -> int, lots: seq<int>): (r: seq<int>)
    ensures |r| == |lots| && forall i :: 0 <= i < |lots| ==> r[i] == f(lots[i])
  {
    seq(|lots|, i requires 0 <= i < |lots| => f(lots[i]))
  }

  function Upgraded(db: Db): Db {
    var r := db.revision + 1;
    Db(r, SchemaAt(r), UpRows(r, db.rows), if r == 17 then MapLots(Widen, db.lots) else db.lots)
  }

  /** Reverting the current revision: the rewritten rows under the predecessor's schema, unless one of them
      cannot be stored there. */
  function Downgraded(db: Db): Option<Db>
    requires db.revision > 0
  {
    var r := db.revision;
    var rows := DownRows(r, db.rows);
    var lots := if r == 17 then MapLots(Narrow, db.lots) else db.lots;
    if AllLegal(SchemaAt(r - 1), rows, lots) then Some(Db(r - 1, SchemaAt(r - 1), rows, lots)) else None
  }

  // ---------------------------------------------------------------- facts about the vocabularies

  /** The downgrade targets the revisions compute by leaving out their own addition are exactly what the
      predecessor created. */
  lemma DowngradeTargets()
    ensures CODES_AT_0011 - {VENUE_TRANSPORT} == CODES_AT_0010
    ensures CODES_AT_0012 - {MIN_SIZE} == CODES_AT_0011
    ensures CODES_AT_0014 - {PROTECTION_NOT_ACCEPTED} == CODES_AT_0012
    ensures CODES_AT_0015 - {VENUE_ENDED_UNFILLED} == CODES_AT_0014
    ensures CODES_AT_0016 - {KILL_SWITCH_ARMED} == CODES_AT_0015
  {
  }

  /** Every revision only widens. */
  lemma VocabulariesGrow(revision: nat)
    ensures OutcomesAt(revision) <= OutcomesAt(revision + 1)
    ensures CodesAt(revision) <= CodesAt(revision + 1)
  {
  }

  /** At the head, the CHECKs are the live model's sets. */
  lemma HeadIsModel()
    ensures SchemaAt(HEAD).outcomeCheck == Some(DECISION_OUTCOMES)
    ensures SchemaAt(HEAD).codeCheck == Some(REJECTION_CODES)
    ensures SchemaAt(HEAD).deciderCheck == Some(DECIDED_BY_VALUES)
  {
  }

  // ---------------------------------------------------------------- running the revisions

  class Migrator {
    var db: Db

    /** An empty database just upgraded to 0002. */
    constructor ()
      ensures db == Db(BASE, SchemaAt(BASE), [], []) && Consistent(db)
    {
      db := Db(BASE, SchemaAt(BASE), [], []);
    }

    /** One statement: it takes effect if everything stored afterwards is legal, and otherwise fails and changes
        nothing. */
    method Execute(schema: Schema, rows: seq<Row>, lots: seq<int>) returns (ok: bool)
      modifies this
      ensures ok <==> AllLegal(schema, rows, lots)
      ensures db == if ok then Db(old(db).revision, schema, rows, lots) else old(db)
    {
      ok := AllLegal(schema, rows, lots);
      if ok {
        db := Db(db.revision, schema, rows, lots);
      }
    }

    /** Drop and recreate the outcome CHECK. */
    method SwapOutcomeCheck(vocabulary: set<Outcome>) returns (ok: bool)
      requires AllLegal(db.schema, db.rows, db.lots)
      modifies this
      ensures ok <==> AllLegal(old(db).schema.(outcomeCheck := Some(vocabulary)), old(db).rows, old(db).lots)
      ensures ok ==> db == old(db).(schema := old(db).schema.(outcomeCheck := Some(vocabulary)))
    {
      ok := Execute(db.schema.(outcomeCheck := None), db.rows, db.lots);
      ok := Execute(db.schema.(outcomeCheck := Some(vocabulary)), db.rows, db.lots);
    }

    /** Drop and recreate the rejection-code CHECK. */
    method SwapCodeCheck(vocabulary: set<Code>) returns (ok: bool)
      requires AllLegal(db.schema, db.rows, db.lots)
      modifies this
      ensures ok <==> AllLegal(old(db).schema.(codeCheck := Some(vocabulary)), old(db).rows, old(db).lots)
      ensures ok ==> db == old(db).(schema := old(db).schema.(codeCheck := Some(vocabulary)))
    {
      ok := Execute(db.schema.(codeCheck := None), db.rows, db.lots);
      ok := Execute(db.schema.(codeCheck := Some(vocabulary)), db.rows, db.lots);
    }

    // -- the statements each revision issues, in its order

    /** ADD COLUMN, nullable, once per column. */
    method AddColumns(columns: set<Column>) returns (ok: bool)
      requires AllLegal(db.schema, db.rows, db.lots)
      modifies this
      ensures ok && db == old(db).(schema := old(db).schema.(columns := old(db).schema.columns + columns))
    {
      ok := Execute(db.schema.(columns := db.schema.columns + columns), db.rows, db.lots);
    }

    /** DROP COLUMN, once per column: `remaining` are left. */
    method DropColumns(columns: set<Column>, remaining: set<Column>) returns (ok: bool)
      requires AllLegal(db.schema, db.rows, db.lots) && db.schema.columns == remaining + columns
      modifies this
      ensures ok && db.schema == old(db).schema.(columns := remaining)
      ensures db.lots == old(db).lots && db.revision == old(db).revision && |db.rows| == |old(db).rows|
      ensures forall i :: 0 <= i < |db.rows| ==> db.rows[i] == WithoutColumns(columns, old(db).rows[i])
    {
      var rows := db.rows;
      rows := seq(|rows|, i requires 0 <= i < |rows| => WithoutColumns(columns, rows[i]));
      ok := Execute(db.schema.(columns := remaining), rows, db.lots);
    }

    method Upgrade0004() returns (ok: bool)
      requires Consistent(db) && db.revision == 3
      modifies this
      ensures ok && db == Upgraded(old(db)).(revision := 3)
    {
      ok := AddColumns({RUN_ID});
      // UPDATE … SET run_id = the legacy run WHERE run_id IS NULL
      var rows := db.rows;
      rows := seq(|rows|, i requires 0 <= i < |rows| =>
        if RUN_ID in rows[i].plain then rows[i] else rows[i].(plain := rows[i].plain[RUN_ID := LEGACY_RUN]));
      ok := Execute(db.schema, rows, db.lots);
      assert db.rows == UpRows(4, old(db).rows);
    }

    /** 0003 and 0004 only drop the column they added. */
    method DowngradeColumn(column: Column) returns (ok: bool)
      requires Consistent(db) && (db.revision == 3 || db.revision == 4) && ColumnsAdded(db.revision) == {column}
      modifies this
      ensures ok && Some(db.(revision := old(db).revision - 1)) == Downgraded(old(db))
    {
      ok := DropColumns({column}, ColumnsAt(db.revision - 1));
      assert db.rows == DownRows(old(db).revision, old(db).rows);
    }

    method Upgrade0008() returns (ok: bool)
      requires Consistent(db) && db.revision == 7
      modifies this
      ensures ok && db == Upgraded(old(db)).(revision := 7)
    {
      VocabulariesGrow(7);
      ok := AddColumns(SIZING_COLUMNS);
      ok := SwapOnly(Some(OUTCOMES_AT_0008), None);
      assert db.rows == UpRows(8, old(db).rows);
    }

    method Upgrade0007() returns (ok: bool)
      requires Consistent(db) && db.revision == 6
      modifies this
      ensures ok && db == Upgraded(old(db)).(revision := 6)
    {
      // ADD COLUMN decided_by NOT NULL DEFAULT 'UNSET'; ADD COLUMN deciding_rule_id NULL
      var rows := db.rows;
      rows := seq(|rows|, i requires 0 <= i < |rows| => rows[i].(decidedBy := Some(UNSET), ruleId := None));
      ok := Execute(db.schema.(attributionColumns := true), rows, db.lots);
      ok := Backfill0007();
      ok := Execute(db.schema.(deciderCheck := Some(DECIDED_BY_VALUES_AT_0007)), db.rows, db.lots);
      ok := Execute(db.schema.(onlyRuleEngineNames := true), db.rows, db.lots);
      assert db.rows == UpRows(7, old(db).rows);
    }

    /** UPDATE … SET decided_by = 'ICT' WHERE decided_by = 'UNSET' */
    method Backfill0007() returns (ok: bool)
      requires AllLegal(db.schema, db.rows, db.lots) && db.schema.deciderCheck == None && !db.schema.onlyRuleEngineNames
      requires db.schema.attributionColumns
      modifies this
      ensures ok && db == old(db).(rows := db.rows) && AllLegal(db.schema, db.rows, db.lots) &&
              |db.rows| == |old(db).rows|
      ensures forall i :: 0 <= i < |db.rows| ==> db.rows[i] == Attributed(old(db).rows[i])
    {
      var rows := db.rows;
      rows := seq(|rows|, i requires 0 <= i < |rows| => Attributed(rows[i]));
      ok := Execute(db.schema, rows, db.lots);
    }

    method Downgrade0007() returns (ok: bool)
      requires Consistent(db) && db.revision == 7
      modifies this
      ensures ok && Some(db.(revision := 6)) == Downgraded(old(db))
    {
      ok := Execute(db.schema.(onlyRuleEngineNames := false), db.rows, db.lots);
      ok := Execute(db.schema.(deciderCheck := None), db.rows, db.lots);
      var rows := db.rows;
      rows := seq(|rows|, i requires 0 <= i < |rows| => rows[i].(decidedBy := None, ruleId := None));
      ok := Execute(db.schema.(attributionColumns := false), rows, db.lots);
      assert db.rows == DownRows(7, old(db).rows);
    }

    /** The UPDATE with which 0006 and 0008 clear the value they are about to forbid. */
    method RewriteOutcome(from: Outcome, to: Outcome) returns (ok: bool)
      requires AllLegal(db.schema, db.rows, db.lots) && db.schema.outcomeCheck.Some? &&
               to in db.schema.outcomeCheck.value
      modifies this
      ensures ok && db.schema == old(db).schema && db.lots == old(db).lots && db.revision == old(db).revision
      ensures |db.rows| == |old(db).rows|
      ensures forall i :: 0 <= i < |db.rows| ==>
                db.rows[i] == ReplaceOutcome(from, to, old(db).rows[i])
    {
      var rows := db.rows;
      rows := seq(|rows|, i requires 0 <= i < |rows| => ReplaceOutcome(from, to, rows[i]));
      forall i | 0 <= i < |rows| ensures Legal(db.schema, rows[i]) {
        ReplacedLegal(db.schema, from, to, db.rows[i]);
      }
      hide Legal;
      ok := Execute(db.schema, rows, db.lots);
    }

    method Downgrade0006() returns (ok: bool)
      requires Consistent(db) && db.revision == 6
      modifies this
      ensures ok <==> Downgraded(old(db)).Some?
      ensures ok ==> Some(db.(revision := 5)) == Downgraded(old(db))
    {
      ok := RewriteOutcome(ABANDONED, OPEN);
      assert db.rows == DownRows(6, old(db).rows);
      ok := SwapOutcomeCheck(OUTCOMES_AT_0002);
    }

    method Downgrade0008() returns (ok: bool)
      requires Consistent(db) && db.revision == 8
      modifies this
      ensures ok <==> Downgraded(old(db)).Some?
      ensures ok ==> Some(db.(revision := 7)) == Downgraded(old(db))
    {
      ok := RewriteOutcome(REJECTED, ABSTAINED);
      ok := SwapOutcomeCheck(OUTCOMES_AT_0006);
      if ok {
        ok := DropColumns(SIZING_COLUMNS, ColumnsAt(7));
        assert db.rows == DownRows(8, old(db).rows);
      }
    }

    method Upgrade0010() returns (ok: bool)
      requires Consistent(db) && db.revision == 9
      modifies this
      ensures ok && db == Upgraded(old(db)).(revision := 9)
    {
      ok := Execute(db.schema.(codeColumn := true), db.rows, db.lots);
      // UPDATE … SET rejection_code = 'UNCODED_LEGACY' WHERE outcome = 'REJECTED' AND rejection_code IS NULL
      var rows := db.rows;
      rows := seq(|rows|, i requires 0 <= i < |rows| =>
        if rows[i].outcome == Some(REJECTED) && rows[i].code == None then rows[i].(code := Some(UNCODED_LEGACY))
        else rows[i]);
      ok := Execute(db.schema, rows, db.lots);
      ok := Execute(db.schema.(codeCheck := Some(CODES_AT_0010)), db.rows, db.lots);
      assert db.rows == UpRows(10, old(db).rows);
    }

    method Downgrade0010() returns (ok: bool)
      requires Consistent(db) && db.revision == 10
      modifies this
      ensures ok && Some(db.(revision := 9)) == Downgraded(old(db))
    {
      ok := Execute(db.schema.(codeCheck := None), db.rows, db.lots);
      var rows := db.rows;
      rows := seq(|rows|, i requires 0 <= i < |rows| => rows[i].(code := None));
      ok := Execute(db.schema.(codeColumn := false), rows, db.lots);
      assert db.rows == DownRows(10, old(db).rows);
    }

    /** The revisions that only swap one CHECK: 0006 and 0008 on the way up, 0013 both ways, and the
        rejection-code revisions both ways; and those that touch nothing modelled here. */
    method SwapOnly(outcomes: Option<set<Outcome>>, codes: Option<set<Code>>) returns (ok: bool)
      requires AllLegal(db.schema, db.rows, db.lots)
      modifies this
      ensures var s := old(db).schema;
              var s1 := if outcomes.Some? then s.(outcomeCheck := outcomes) else s;
              var s2 := if codes.Some? then s1.(codeCheck := codes) else s1;
              (ok <==> AllLegal(s2, old(db).rows, old(db).lots) && AllLegal(s1, old(db).rows, old(db).lots)) &&
                  (ok ==> db == old(db).(schema := s2))
    {
      ok := true;
      if outcomes.Some? {
        ok := SwapOutcomeCheck(outcomes.value);
      }
      if ok && codes.Some? {
        ok := SwapCodeCheck(codes.value);
      }
    }

    /** The loop over the two quantity columns: `sized_units` of `decision_records`, then `lot_size` of `trades`. */
    method RetypeQuantities(t: Numeric, f: int -> int) returns (ok: bool)
      requires AllLegal(db.schema, db.rows, db.lots)
      modifies this
      ensures var rows := old(db).rows; var s := old(db).schema.(sizedUnitsType := t, lotSizeType := t);
              && (ok <==> AllLegal(s, MapSizedUnits(f, rows), MapLots(f, old(db).lots)))
              && (ok ==> db == Db(old(db).revision, s, MapSizedUnits(f, rows), MapLots(f, old(db).lots)))
    {
      ok := Execute(db.schema.(sizedUnitsType := t), MapSizedUnits(f, db.rows), db.lots);
      if ok {
        ok := Execute(db.schema.(lotSizeType := t), db.rows, MapLots(f, db.lots));
      }
    }

    method Upgrade0017() returns (ok: bool)
      requires Consistent(db) && db.revision == 16
      modifies this
      ensures ok && db == Upgraded(old(db)).(revision := 16)
    {
      VocabulariesGrow(16);
      ok := SwapOnly(Some(OUTCOMES_AT_0017), Some(CODES_AT_0017));
      WidenedRows(db);
      hide Legal, MapSizedUnits, UpRows, MapLots;
      ok := RetypeQuantities(N21_9, Widen);
      ok := AddColumns({CLOSE_ATTEMPT_HINT});
    }

    method Downgrade0017() returns (ok: bool)
      requires Consistent(db) && db.revision == 17
      modifies this
      ensures ok <==> Downgraded(old(db)).Some?
      ensures ok ==> Some(db.(revision := 16)) == Downgraded(old(db))
    {
      ok := DropColumns({CLOSE_ATTEMPT_HINT}, ColumnsAt(16));
      assert MapSizedUnits(Narrow, db.rows) == DownRows(17, old(db).rows);
      ok := RetypeQuantities(N18_6, Narrow);
      if ok {
        ok := SwapOnly(Some(OUTCOMES_AT_0013), Some(CODES_AT_0016));
      }
    }

    // -- the alembic commands: every revision between here and the target, in one transaction

    /** Apply the next revision. */
    method Upgrade() returns (ok: bool)
      requires Consistent(db) && db.revision < HEAD
      modifies this
      ensures ok && db == Upgraded(old(db)) && Consistent(db)
    {
      var r := db.revision + 1;
      VocabulariesGrow(db.revision);
      ghost var before := db;
      UpgradedConsistent(before);
      if r == 3 { ok := AddColumns({FILL_PRICE}); }
      else if r == 4 { ok := Upgrade0004(); }
      else if r == 6 { ok := SwapOnly(Some(OUTCOMES_AT_0006), None); }
      else if r == 7 { ok := Upgrade0007(); }
      else if r == 8 { ok := Upgrade0008(); }
      else if r == 10 { ok := Upgrade0010(); }
      else if r == 11 { ok := SwapOnly(None, Some(CODES_AT_0011)); }
      else if r == 12 { ok := SwapOnly(None, Some(CODES_AT_0012)); }
      else if r == 13 { ok := SwapOnly(Some(OUTCOMES_AT_0013), None); }
      else if r == 14 { ok := SwapOnly(None, Some(CODES_AT_0014)); }
      else if r == 15 { ok := SwapOnly(None, Some(CODES_AT_0015)); }
      else if r == 16 { ok := SwapOnly(None, Some(CODES_AT_0016)); }
      else if r == 17 { ok := Upgrade0017(); }
      else { ok := true; }
      if r !in {4, 7, 10, 17} { UpRowsSame(r, before.rows); }
      db := db.(revision := r);
    }

    /** Revert the current revision. A failed statement leaves the work to the caller's rollback. */
    method Downgrade() returns (ok: bool)
      requires Consistent(db) && db.revision > BASE
      modifies this
      ensures ok <==> Downgraded(old(db)).Some?
      ensures ok ==> Some(db) == Downgraded(old(db)) && Consistent(db)
    {
      var r := db.revision;
      ghost var before := db;
      DowngradeTargets();
      if r == 3 { ok := DowngradeColumn(FILL_PRICE); }
      else if r == 4 { ok := DowngradeColumn(RUN_ID); }
      else if r == 6 { ok := Downgrade0006(); }
      else if r == 7 { ok := Downgrade0007(); }
      else if r == 8 { ok := Downgrade0008(); }
      else if r == 10 { ok := Downgrade0010(); }
      else if r == 11 { ok := SwapOnly(None, Some(CODES_AT_0011 - {VENUE_TRANSPORT})); }
      else if r == 12 { ok := SwapOnly(None, Some(CODES_AT_0012 - {MIN_SIZE})); }
      else if r == 13 { ok := SwapOnly(Some(OUTCOMES_AT_0008), None); }
      else if r == 14 { ok := SwapOnly(None, Some(CODES_AT_0014 - {PROTECTION_NOT_ACCEPTED})); }
      else if r == 15 { ok := SwapOnly(None, Some(CODES_AT_0015 - {VENUE_ENDED_UNFILLED})); }
      else if r == 16 { ok := SwapOnly(None, Some(CODES_AT_0016 - {KILL_SWITCH_ARMED})); }
      else if r == 17 { ok := Downgrade0017(); }
      else { ok := true; }
      if r !in {3, 4, 6, 7, 8, 10, 17} { DownRowsSame(r, before.rows); }
      if ok {
        db := db.(revision := r - 1);
      }
    }

    method UpgradeTo(target: nat) returns (ok: bool)
      requires Consistent(db) && db.revision <= target <= HEAD
      modifies this
      ensures ok && db == UpgradedTo(old(db), target) && Consistent(db)
    {
      ok := true;
      while db.revision < target
        invariant ok && Consistent(db) && db.revision <= target
        invariant UpgradedTo(db, target) == UpgradedTo(old(db), target)
        decreases target - db.revision
      {
        ok := Upgrade();
      }
    }

    /** Refused by any revision on the way, the command changes nothing. */
    method DowngradeTo(target: nat) returns (ok: bool)
      requires Consistent(db) && BASE <= target <= db.revision
      modifies this
      ensures ok <==> DowngradedTo(old(db), target).Some?
      ensures db == if ok then DowngradedTo(old(db), target).value else old(db)
      ensures Consistent(db)
    {
      var before := db;
      ok := true;
      while db.revision > target
        invariant ok && Consistent(db) && db.revision >= target
        invariant DowngradedTo(db, target) == DowngradedTo(old(db), target)
        decreases db.revision
      {
        ok := Downgrade();
        if !ok {
          db := before;
          return;
        }
      }
    }

    /** A write by the application: stored if legal, else refused by the database. */
    method Write(change: Change) returns (ok: bool)
      requires Consistent(db)
      modifies this
      ensures db == Written(old(db), change) && Consistent(db)
      ensures ok <==> Admitted(old(db), change)
    {
      ok := Admitted(db, change);
      if ok {
        match change {
          case Insert(row) => db := db.(rows := db.rows + [row]);
          case Update(i, row) => db := db.(rows := db.rows[i := row]);
          case Delete(i) => db := db.(rows := db.rows[..i] + db.rows[i + 1..]);
          case Trade(lot) => db := db.(lots := db.lots + [lot]);
        }
      }
    }
  }

  /** A write to `decision_records`, or a new trade. */
  datatype Change = Insert(row: Row) | Update(index: nat, row: Row) | Delete(index: nat) | Trade(lot: int)

  predicate Admitted(db: Db, change: Change) {
    match change
    case Insert(row) => Legal(db.schema, row)
    case Update(i, row) => i < |db.rows| && Legal(db.schema, row)
    case Delete(i) => i < |db.rows|
    case Trade(lot) => Fits(db.schema.lotSizeType, lot)
  }

  function Written(db: Db, change: Change): Db {
    if !Admitted(db, change) then db
    else
      match change
      case Insert(row) => db.(rows := db.rows + [row])
      case Update(i, row) => db.(rows := db.rows[i := row])
      case Delete(i) => db.(rows := db.rows[..i] + db.rows[i + 1..])
      case Trade(lot) => db.(lots := db.lots + [lot])
  }

  function UpgradedTo(db: Db, target: nat): Db
    decreases target - db.revision
  {
    if db.revision >= target then db else UpgradedTo(Upgraded(db), target)
  }

  function DowngradedTo(db: Db, target: nat): Option<Db>
    decreases db.revision
  {
    if db.revision <= target then Some(db)
    else
      var one := Downgraded(db);
      if one == None then None else DowngradedTo(one.value, target)
  }

  /** The rescale's rows are the upgrade's, and fit the wider type. */
  lemma WidenedRows(db: Db)
    requires AllLegal(db.schema, db.rows, db.lots)
    requires db.schema.sizedUnitsType == N18_6 && db.schema.lotSizeType == N18_6
    ensures MapSizedUnits(Widen, db.rows) == UpRows(17, db.rows)
    ensures AllLegal(db.schema.(sizedUnitsType := N21_9, lotSizeType := N21_9), MapSizedUnits(Widen, db.rows),
              MapLots(Widen, db.lots))
  {
  }

  lemma ReplacedLegal(s: Schema, from: Outcome, to: Outcome, row: Row)
    requires Legal(s, row) && s.outcomeCheck.Some? && to in s.outcomeCheck.value
    ensures Legal(s, ReplaceOutcome(from, to, row))
  {
  }

  lemma UpRowsSame(r: nat, rows: seq<Row>)
    requires r !in {4, 7, 10, 17}
    ensures UpRows(r, rows) == rows
  {
  }

  lemma DownRowsSame(r: nat, rows: seq<Row>)
    requires r !in {3, 4, 6, 7, 8, 10, 17}
    ensures DownRows(r, rows) == rows
  {
  }

  /** Every upgrade succeeds: what was legal before is legal, as rewritten, under the next revision's schema. */
  lemma UpgradedConsistent(db: Db)
    requires Consistent(db) && db.revision < HEAD
    ensures Consistent(Upgraded(db))
  {
    var r := db.revision + 1;
    forall i | 0 <= i < |db.rows| ensures Legal(SchemaAt(r), UpRow(r, db.rows[i])) {
      UpRowLegal(r, db.rows[i]);
    }
    hide Legal;
  }

  lemma UpRowLegal(r: nat, row: Row)
    requires BASE < r <= HEAD && Legal(SchemaAt(r - 1), row)
    ensures Legal(SchemaAt(r), UpRow(r, row))
  {
    VocabulariesGrow(r - 1);
    ColumnsGrow(r);
    hide ColumnsAt, ColumnsAdded;
  }

  lemma ColumnsGrow(r: nat)
    requires r > 0
    ensures ColumnsAt(r) == ColumnsAt(r - 1) + ColumnsAdded(r) && ColumnsAt(r - 1) !! ColumnsAdded(r)
    ensures r == 4 ==> RUN_ID in ColumnsAt(r)
  {
  }

  function MapSizedUnits(f: int -> int, rows: seq<Row>): (r: seq<Row>)
    ensures |r| == |rows| && forall i :: 0 <= i < |rows| ==>
              r[i] == rows[i].(sizedUnits := MapUnits(f, rows[i].sizedUnits))
  {
    seq(|rows|, i requires 0 <= i < |rows| => rows[i].(sizedUnits := MapUnits(f, rows[i].sizedUnits)))
  }
}
