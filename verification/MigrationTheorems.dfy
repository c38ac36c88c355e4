/** What the chain guarantees: safety over every interleaving, and what a round trip keeps. */
module MigrationTheorems {
  import opened Wrappers
  import opened DecisionVocabulary
  import opened Migrations

  // ---------------------------------------------------------------- every interleaving

  datatype Event = UpTo(target: nat) | DownTo(target: nat) | Write(change: Change)

  /** What one command or write does. A downgrade some revision refuses changes nothing. */
  function Step(db: Db, e: Event): Db {
    match e
    case UpTo(t) => if t <= HEAD then UpgradedTo(db, t) else db
    case DownTo(t) =>
      if t < BASE then db else var d := DowngradedTo(db, t); if d.Some? then d.value else db
    case Write(c) => Written(db, c)
  }

  function Run(db: Db, events: seq<Event>): Db
    decreases events
  {
    if events == [] then db else Run(Step(db, events[0]), events[1..])
  }

  /** Whatever the interleaving of upgrades, downgrades and writes, the database stays at a revision of the
      chain, with exactly that revision's CHECKs, every stored row satisfying them. */
  lemma {:induction false} AlwaysConsistent(db: Db, events: seq<Event>)
    requires Consistent(db)
    ensures Consistent(Run(db, events))
    decreases events
  {
    if events != [] {
      match events[0] {
        case UpTo(t) => if t <= HEAD { UpgradedToConsistent(db, t); }
        case DownTo(t) => if t >= BASE { DowngradedToConsistent(db, t); }
        case Write(c) => WrittenConsistent(db, c);
      }
      AlwaysConsistent(Step(db, events[0]), events[1..]);
    }
  }

  lemma {:induction false} UpgradedToConsistent(db: Db, target: nat)
    requires Consistent(db) && target <= HEAD
    ensures Consistent(UpgradedTo(db, target))
    ensures db.revision <= target ==> UpgradedTo(db, target).revision == target
    decreases target - db.revision
  {
    if db.revision < target {
      UpgradedConsistent(db);
      UpgradedToConsistent(Upgraded(db), target);
    }
  }

  lemma {:induction false} DowngradedToConsistent(db: Db, target: nat)
    requires Consistent(db) && BASE <= target
    ensures var d := DowngradedTo(db, target); d.Some? ==>
              Consistent(d.value) && (target <= db.revision ==> d.value.revision == target)
    decreases db.revision
  {
    if db.revision > target && Downgraded(db).Some? {
      DowngradedToConsistent(Downgraded(db).value, target);
    }
  }

  lemma WrittenConsistent(db: Db, c: Change)
    requires Consistent(db)
    ensures Consistent(Written(db, c))
  {
  }

  /** From any reachable state, `upgrade head` lands on the live model's vocabularies. */
  lemma {:induction false} UpgradeHeadIsModel(events: seq<Event>)
    ensures var db := UpgradedTo(Run(Db(BASE, SchemaAt(BASE), [], []), events), HEAD);
            && Consistent(db) && db.revision == HEAD
            && db.schema.outcomeCheck == Some(DECISION_OUTCOMES) && db.schema.codeCheck == Some(REJECTION_CODES)
  {
    var start := Db(BASE, SchemaAt(BASE), [], []);
    AlwaysConsistent(start, events);
    UpgradedToConsistent(Run(start, events), HEAD);
    HeadIsModel();
  }

  // ---------------------------------------------------------------- when a downgrade refuses

  /** The outcome or code a revision added and its downgrade does not rewrite. */
  predicate CarriesAddition(revision: nat, row: Row) {
    match revision
    case 11 => row.code == Some(VENUE_TRANSPORT)
    case 12 => row.code == Some(MIN_SIZE)
    case 13 => row.outcome == Some(UNSIZED_FILL)
    case 14 => row.code == Some(PROTECTION_NOT_ACCEPTED)
    case 15 => row.code == Some(VENUE_ENDED_UNFILLED)
    case 16 => row.code == Some(KILL_SWITCH_ARMED)
    case 17 => row.outcome == Some(SUBMITTING) || row.code == Some(SUBMISSION_NOT_FOUND_AFTER_RESTART)
    case _ => false
  }

  /** The rounded quantity needs a thirteenth integer digit. */
  predicate Overflows(v: int) {
    v >= 999_999_999_999_999_999_500 || v <= -999_999_999_999_999_999_500
  }

  predicate Blocks(revision: nat, row: Row) {
    CarriesAddition(revision, row) || (revision == 17 && row.sizedUnits.Some? && Overflows(row.sizedUnits.value))
  }

  /** A downgrade refuses exactly when some row carries what the revision added and nothing rewrites, or, at
      0017, some quantity rounds past its twelfth integer digit. */
  lemma DowngradeRefusesExactly(db: Db)
    requires Consistent(db) && db.revision > BASE
    ensures Downgraded(db) == None <==>
              (exists i :: 0 <= i < |db.rows| && Blocks(db.revision, db.rows[i])) ||
              (db.revision == 17 && exists i :: 0 <= i < |db.lots| && Overflows(db.lots[i]))
  {
    var r := db.revision;
    forall i | 0 <= i < |db.rows|
      ensures Legal(SchemaAt(r - 1), DownRow(r, db.rows[i])) <==> !Blocks(r, db.rows[i])
    {
      RowBlocksExactly(r, db.rows[i]);
    }
    forall i | 0 <= i < |db.lots| && r == 17 ensures Fits(N18_6, Narrow(db.lots[i])) <==> !Overflows(db.lots[i]) {
      NarrowFitsExactly(db.lots[i]);
    }
  }

  lemma NarrowFitsExactly(v: int)
    ensures Fits(N18_6, Narrow(v)) <==> !Overflows(v)
  {
  }

  lemma RowBlocksExactly(r: nat, row: Row)
    requires BASE < r <= HEAD && Legal(SchemaAt(r), row)
    ensures Legal(SchemaAt(r - 1), DownRow(r, row)) <==> !Blocks(r, row)
  {
    if r <= 10 {
      EarlyNeverBlocks(r, row);
    } else {
      LateBlocksExactly(r, row);
    }
  }

  lemma EarlyNeverBlocks(r: nat, row: Row)
    requires BASE < r <= 10 && Legal(SchemaAt(r), row)
    ensures Legal(SchemaAt(r - 1), DownRow(r, row)) && !Blocks(r, row)
  {
    PlainBlocksNothing(r, row);
    EarlyOutcomeStays(r, row);
    hide OutcomesAt, CodesAt, ColumnsAt, Fits;
  }

  lemma EarlyOutcomeStays(r: nat, row: Row)
    requires BASE < r <= 10 && OutcomeOk(Some(OutcomesAt(r)), row)
    ensures OutcomeOk(Some(OutcomesAt(r - 1)), DownRow(r, row))
  {
    if row.outcome.Some? { OutcomeAddedAt(r, row.outcome.value); }
  }

  lemma LateBlocksExactly(r: nat, row: Row)
    requires 10 < r <= HEAD && Legal(SchemaAt(r), row)
    ensures Legal(SchemaAt(r - 1), DownRow(r, row)) <==> !Blocks(r, row)
  {
    PlainBlocksNothing(r, row);
    if row.outcome.Some? { OutcomeAddedAt(r, row.outcome.value); }
    if row.code.Some? { CodeAddedAt(r, row.code.value); }
    if row.sizedUnits.Some? { NarrowFitsExactly(row.sizedUnits.value); }
    hide OutcomesAt, CodesAt, ColumnsAt, Fits, Overflows, Narrow;
  }

  lemma PlainBlocksNothing(r: nat, row: Row)
    requires BASE < r <= HEAD && row.plain.Keys <= ColumnsAt(r)
    ensures DownRow(r, row).plain.Keys <= ColumnsAt(r - 1)
  {
  }

  /** Each revision adds exactly the outcome it is named for. */
  lemma OutcomeAddedAt(r: nat, o: Outcome)
    requires BASE < r <= HEAD
    ensures o in OutcomesAt(r) <==>
              o in OutcomesAt(r - 1) || (r == 6 && o == ABANDONED) || (r == 8 && o == REJECTED) ||
              (r == 13 && o == UNSIZED_FILL) || (r == 17 && o == SUBMITTING)
    ensures ((r == 6 && o == ABANDONED) || (r == 8 && o == REJECTED) || (r == 13 && o == UNSIZED_FILL) ||
            (r == 17 && o == SUBMITTING)) ==>
              o !in OutcomesAt(r - 1)
  {
  }

  function CodeAdded(r: nat): Option<Code> {
    match r
    case 11 => Some(VENUE_TRANSPORT)
    case 12 => Some(MIN_SIZE)
    case 14 => Some(PROTECTION_NOT_ACCEPTED)
    case 15 => Some(VENUE_ENDED_UNFILLED)
    case 16 => Some(KILL_SWITCH_ARMED)
    case 17 => Some(SUBMISSION_NOT_FOUND_AFTER_RESTART)
    case _ => None
  }

  lemma CodeAddedAt(r: nat, c: Code)
    requires 10 < r <= HEAD
    ensures c in CodesAt(r) <==> c in CodesAt(r - 1) || CodeAdded(r) == Some(c)
    ensures CodeAdded(r) == Some(c) ==> c !in CodesAt(r - 1)
  {
  }

  /** A downgrade does not change whether a row blocks an earlier revision. */
  lemma BlocksThrough(r: nat, at: nat, row: Row)
    requires BASE < r < at <= HEAD
    ensures Blocks(r, DownRow(at, row)) <==> Blocks(r, row)
  {
  }

  ghost predicate SomeRowBlocks(db: Db, target: nat) {
    exists r: nat, i :: target < r <= db.revision && 0 <= i < |db.rows| && Blocks(r, db.rows[i])
  }

  ghost predicate SomeLotOverflows(db: Db, target: nat) {
    target < 17 == db.revision && exists i :: 0 <= i < |db.lots| && Overflows(db.lots[i])
  }

  /** A downgrade command over any number of revisions is refused, and changes nothing, exactly when some stored
      row carries what one of those revisions added and nothing rewrites, or a quantity overflows at 0017. */
  lemma {:induction false} CommandRefusesExactly(db: Db, target: nat)
    requires Consistent(db) && BASE <= target
    ensures DowngradedTo(db, target) == None <==> SomeRowBlocks(db, target) || SomeLotOverflows(db, target)
    decreases db.revision
  {
    if db.revision > target {
      DowngradeRefusesExactly(db);
      var one := Downgraded(db);
      if one.Some? {
        DowngradedToConsistent(db, db.revision - 1);
        CommandRefusesExactly(one.value, target);
        BlocksBelow(db, one.value, target);
      }
    }
  }

  lemma BlocksBelow(db: Db, one: Db, target: nat)
    requires Consistent(db) && BASE <= target < db.revision && Downgraded(db) == Some(one)
    ensures SomeRowBlocks(db, target) <==> SomeRowBlocks(one, target)
    ensures !SomeLotOverflows(db, target) && !SomeLotOverflows(one, target)
  {
    var at := db.revision;
    DowngradeRefusesExactly(db);
    forall r: nat, i | target < r < at && 0 <= i < |db.rows| ensures Blocks(r, one.rows[i]) <==> Blocks(r, db.rows[i]) {
      BlocksThrough(r, at, db.rows[i]);
    }
    if SomeRowBlocks(db, target) {
      var r: nat, i :| target < r <= at && 0 <= i < |db.rows| && Blocks(r, db.rows[i]);
      assert r < at;
      assert Blocks(r, one.rows[i]);
    }
    if SomeRowBlocks(one, target) {
      var r: nat, i :| target < r <= one.revision && 0 <= i < |one.rows| && Blocks(r, one.rows[i]);
      assert Blocks(r, db.rows[i]);
    }
  }

  // ---------------------------------------------------------------- round trips

  /** Upgrading and reverting at once is the identity, at every revision and for every legal content: no
      backfill and no rescale leaves a trace. */
  lemma UpThenDown(db: Db)
    requires Consistent(db) && db.revision < HEAD
    ensures Downgraded(Upgraded(db)) == Some(db)
  {
    var r := db.revision + 1;
    forall i | 0 <= i < |db.rows| ensures DownRow(r, UpRow(r, db.rows[i])) == db.rows[i] {
      RowUpThenDown(r, db.rows[i]);
    }
    assert DownRows(r, UpRows(r, db.rows)) == db.rows;
    if r == 17 {
      assert MapLots(Narrow, MapLots(Widen, db.lots)) == db.lots;
    }
  }

  lemma RowUpThenDown(r: nat, row: Row)
    requires BASE < r <= HEAD && Legal(SchemaAt(r - 1), row)
    ensures DownRow(r, UpRow(r, row)) == row
  {
    if row.outcome.Some? { OutcomeAddedAt(r, row.outcome.value); }
  }

  /** Applying one revision more. */
  lemma {:induction false} UpgradedToNext(db: Db, target: nat)
    requires Consistent(db) && db.revision <= target < HEAD
    ensures UpgradedTo(db, target + 1) == Upgraded(UpgradedTo(db, target))
    decreases target - db.revision
  {
    if db.revision < target {
      UpgradedConsistent(db);
      UpgradedToNext(Upgraded(db), target);
    }
  }

  /** An upgrade command over any number of revisions, reverted, is the identity. */
  lemma {:induction false} CommandUpThenDown(db: Db, target: nat)
    requires Consistent(db) && db.revision <= target <= HEAD
    ensures DowngradedTo(UpgradedTo(db, target), db.revision) == Some(db)
    decreases target
  {
    if db.revision < target {
      CommandUpThenDown(db, target - 1);
      UpgradedToNext(db, target - 1);
      UpgradedToConsistent(db, target - 1);
      UpThenDown(UpgradedTo(db, target - 1));
    }
  }

  /** The row comes back unchanged when the revision is reverted and reapplied. */
  predicate Survives(revision: nat, row: Row) {
    match revision
    case 3 => FILL_PRICE !in row.plain
    case 4 => RUN_ID in row.plain && row.plain[RUN_ID] == LEGACY_RUN
    case 6 => row.outcome != Some(ABANDONED)
    case 7 => row.decidedBy == Some(ICT) && row.ruleId == None
    case 8 => row.outcome != Some(REJECTED) && row.plain.Keys !! SIZING_COLUMNS
    case 10 => row.code == (if row.outcome == Some(REJECTED) then Some(UNCODED_LEGACY) else None)
    case 17 => (row.sizedUnits.Some? ==> row.sizedUnits.value % 1000 == 0) && CLOSE_ATTEMPT_HINT !in row.plain
    case _ => true
  }

  /** Reverting and reapplying a revision restores the content exactly when every row survives it: the
      attribution backfill of 0007 and the code backfill of 0010 are true of the old rows only once. */
  lemma DownThenUpExactly(db: Db)
    requires Consistent(db) && db.revision > BASE && Downgraded(db).Some?
    ensures Upgraded(Downgraded(db).value) == db <==>
              (forall i :: 0 <= i < |db.rows| ==> Survives(db.revision, db.rows[i])) &&
              (db.revision == 17 ==> forall i :: 0 <= i < |db.lots| ==> db.lots[i] % 1000 == 0)
  {
    var r := db.revision;
    var back := Upgraded(Downgraded(db).value);
    forall i | 0 <= i < |db.rows| ensures back.rows[i] == db.rows[i] <==> Survives(r, db.rows[i]) {
      RowSurvivesExactly(r, db.rows[i]);
    }
    assert back.rows == db.rows <==> forall i :: 0 <= i < |db.rows| ==> Survives(r, db.rows[i]) by {
      if back.rows == db.rows {
        forall i | 0 <= i < |db.rows| ensures Survives(r, db.rows[i]) { assert back.rows[i] == db.rows[i]; }
      }
    }
    if r == 17 {
      forall i | 0 <= i < |db.lots| ensures back.lots[i] == db.lots[i] <==> db.lots[i] % 1000 == 0 {
        NarrowWidenExactly(db.lots[i]);
      }
      assert back.lots == db.lots <==> forall i :: 0 <= i < |db.lots| ==> db.lots[i] % 1000 == 0 by {
        if back.lots == db.lots {
          forall i | 0 <= i < |db.lots| ensures db.lots[i] % 1000 == 0 { assert back.lots[i] == db.lots[i]; }
        }
      }
    }
  }

  lemma RowSurvivesExactly(r: nat, row: Row)
    requires BASE < r <= HEAD && Legal(SchemaAt(r), row)
    ensures UpRow(r, DownRow(r, row)) == row <==> Survives(r, row)
  {
    if r == 17 && row.sizedUnits.Some? { NarrowWidenExactly(row.sizedUnits.value); }
  }

  lemma NarrowWidenExactly(v: int)
    ensures Widen(Narrow(v)) == v <==> v % 1000 == 0
  {
  }

  // ---------------------------------------------------------------- rows and backfills

  /** The upgrades 0011 to 0017 leave every outcome, code and attribution as it was, 0007 leaves every old row
      ICT with no rule named, and 0010 marks exactly the rejections as legacy; no upgrade but 0004 fills in a
      plain column. */
  lemma UpgradeTouches(db: Db, i: nat)
    requires Consistent(db) && db.revision < HEAD && i < |db.rows|
    ensures var was, now := db.rows[i], Upgraded(db).rows[i];
            && now.id == was.id && now.outcome == was.outcome && now.abstained == was.abstained
            && (db.revision != 3 ==> now.plain == was.plain)
            && (db.revision == 3 ==> now.plain == was.plain[RUN_ID := "00000000-0000-0000-0000-000000000001"])
            && (db.revision != 9 ==> now.code == was.code)
            && (db.revision != 6 ==> now.decidedBy == was.decidedBy && now.ruleId == was.ruleId)
            && (db.revision == 6 ==> now.decidedBy == Some(ICT) && now.ruleId == None)
            && (db.revision == 9 ==> (now.code == Some(UNCODED_LEGACY) <==> was.outcome == Some(REJECTED)))
            && (db.revision == 9 ==> (now.code == None <==> was.outcome != Some(REJECTED)))
            && (db.revision != 16 ==> now.sizedUnits == was.sizedUnits)
            && (db.revision == 16 ==> TimesThousand(was.sizedUnits, now.sizedUnits))
  {
  }

  predicate TimesThousand(was: Option<int>, now: Option<int>) {
    (was == None <==> now == None) && (was.Some? ==> now == Some(was.value * 1000))
  }

  /** To the nearest of the values with six places. */
  predicate NearestSixPlaces(was: int, now: int) {
    -500 <= now * 1000 - was <= 500
  }

  /** What a downgrade that succeeds does to a row. Outcomes stay but for two, ABANDONED to OPEN at 0006 and
      REJECTED to ABSTAINED at 0008; codes but at 0010, attributions but at 0007, where both go; quantities but
      at 0017, where they are rounded; and the plain columns lose exactly those the revision had added. */
  lemma DowngradeTouches(db: Db, i: nat)
    requires Consistent(db) && db.revision > BASE && Downgraded(db).Some? && i < |db.rows|
    ensures var r := db.revision; var was, now := db.rows[i], Downgraded(db).value.rows[i];
            && now.id == was.id && now.abstained == was.abstained
            && now.outcome == (if r == 6 && was.outcome == Some(ABANDONED) then Some(OPEN)
                               else if r == 8 && was.outcome == Some(REJECTED) then Some(ABSTAINED)
                               else was.outcome)
            && now.code == (if r == 10 then None else was.code)
            && now.decidedBy == (if r == 7 then None else was.decidedBy)
            && now.ruleId == (if r == 7 then None else was.ruleId)
            && (r != 17 ==> now.sizedUnits == was.sizedUnits)
            && (r == 17 ==> (was.sizedUnits == None <==> now.sizedUnits == None))
            && (r == 17 && was.sizedUnits.Some? ==> NearestSixPlaces(was.sizedUnits.value, now.sizedUnits.value))
  {
  }

  lemma DowngradeDropsColumns(db: Db, i: nat, column: Column)
    requires Consistent(db) && db.revision > BASE && Downgraded(db).Some? && i < |db.rows|
    ensures var was, now := db.rows[i].plain, Downgraded(db).value.rows[i].plain;
            && (column in now <==> column in was && AddedIn(column) != db.revision)
            && (column in now ==> now[column] == was[column])
  {
    RowDropsColumns(db.revision, db.rows[i], column);
  }

  lemma RowDropsColumns(r: nat, row: Row, column: Column)
    requires BASE < r <= HEAD
    ensures column in DownRow(r, row).plain <==> column in row.plain && AddedIn(column) != r
    ensures column in DownRow(r, row).plain ==> DownRow(r, row).plain[column] == row.plain[column]
  {
  }

  function AddedIn(column: Column): nat {
    match column
    case FILL_PRICE => 3
    case RUN_ID => 4
    case CLOSE_ATTEMPT_HINT => 17
    case _ => 8
  }

  /** No row is gained, lost or moved, and lot sizes change at 0017 only, where they are rescaled. */
  lemma RevisionsKeepRows(db: Db)
    requires Consistent(db)
    ensures db.revision < HEAD ==>
              var up := Upgraded(db);
              && up.revision == db.revision + 1 && |up.rows| == |db.rows| && |up.lots| == |db.lots|
              && (db.revision != 16 ==> up.lots == db.lots)
              && (db.revision == 16 ==> forall i :: 0 <= i < |db.lots| ==> up.lots[i] == db.lots[i] * 1000)
    ensures db.revision > BASE && Downgraded(db).Some? ==>
              var down := Downgraded(db).value;
              && down.revision == db.revision - 1 && |down.rows| == |db.rows| && |down.lots| == |db.lots|
              && (db.revision != 17 ==> down.lots == db.lots)
              && (db.revision == 17 ==> forall i :: 0 <= i < |db.lots| ==> NearestSixPlaces(db.lots[i], down.lots[i]))
  {
  }

  // ---------------------------------------------------------------- what can be stored

  /** What the CHECKs and types of a revision admit, column by column. */
  lemma AdmittedExactly(r: nat, row: Row)
    requires BASE <= r <= HEAD
    ensures Legal(SchemaAt(r), row) <==>
              && (row.outcome.Some? ==> row.outcome.value in OutcomesAt(r))
              && (row.code.Some? ==> r >= 10 && row.code.value in CodesAt(r))
              && (if r < 7 then row.decidedBy == None && row.ruleId == None
                  else row.decidedBy in {Some(UNSET), Some(ICT), Some(RULE_ENGINE)})
              && (row.ruleId.Some? ==> row.decidedBy == Some(RULE_ENGINE))
              && (forall column :: column in row.plain ==> AddedIn(column) <= r)
              && (row.sizedUnits.Some? ==>
                    UnderTrillion(row.sizedUnits.value, if r < 17 then 1_000_000 else 1_000_000_000))
  {
    forall column | column in row.plain ensures column in ColumnsAt(r) <==> AddedIn(column) <= r {
      ColumnsAreAdded(r, column);
    }
    hide ColumnsAt, AddedIn, OutcomesAt, CodesAt;
  }

  /** Twelve integer digits, `unit` being one. */
  predicate UnderTrillion(v: int, unit: int) {
    -1_000_000_000_000 * unit < v < 1_000_000_000_000 * unit
  }

  lemma ColumnsAreAdded(r: nat, column: Column)
    ensures column in ColumnsAt(r) <==> AddedIn(column) <= r
  {
  }

  /** A write that is refused changes nothing; one that is stored changes the one row, or trade, it names. */
  lemma WritesTouchOne(db: Db, change: Change)
    ensures var now := Written(db, change);
            && now.revision == db.revision && now.schema == db.schema
            && (now != db ==> Admitted(db, change))
            && (Admitted(db, change) ==>
                  match change
                  case Insert(row) => now.rows == db.rows + [row] && now.lots == db.lots
                  case Update(i, row) => |now.rows| == |db.rows| && now.rows[i] == row && now.lots == db.lots &&
                      forall k :: 0 <= k < |db.rows| && k != i ==> now.rows[k] == db.rows[k]
                  case Delete(i) => now.lots == db.lots &&
                      multiset(now.rows) == multiset(db.rows) - multiset{db.rows[i]}
                  case Trade(lot) => now.rows == db.rows && now.lots == db.lots + [lot])
  {
    if Admitted(db, change) && change.Delete? {
      var i := change.index;
      assert db.rows == db.rows[..i] + [db.rows[i]] + db.rows[i + 1..];
    }
  }

  predicate LooksRewritten(row: Row) {
    row.outcome == Some(ABSTAINED) && !row.abstained
  }

  /** After 0008's downgrade the rewritten rows are exactly those that read ABSTAINED without having
      abstained, if and only if no abstention was stored as one that did not abstain and no rejection as one
      that did. */
  lemma RejectedStayDetectableExactly(db: Db)
    requires Consistent(db) && db.revision == 8 && Downgraded(db).Some?
    ensures var after := Downgraded(db).value.rows;
            (forall i :: 0 <= i < |db.rows| ==>
                  (LooksRewritten(after[i]) <==> db.rows[i].outcome == Some(REJECTED))) <==>
            (forall i :: 0 <= i < |db.rows| ==>
                  !LooksRewritten(db.rows[i]) && (db.rows[i].outcome == Some(REJECTED) ==> !db.rows[i].abstained))
  {
    var after := Downgraded(db).value.rows;
    forall i | 0 <= i < |db.rows|
      ensures (LooksRewritten(after[i]) <==> db.rows[i].outcome == Some(REJECTED)) <==>
              (!LooksRewritten(db.rows[i]) && (db.rows[i].outcome == Some(REJECTED) ==> !db.rows[i].abstained))
    {
    }
  }

  // ---------------------------------------------------------------- quantities

  function Distance(a: int, b: int): nat {
    if a <= b then b - a else a - b
  }

  /** Narrowing moves a quantity by at most half a unit in the sixth place, to the nearest six-place value,
      and treats both signs alike. */
  lemma NarrowRounds(v: int, q: int)
    ensures Distance(Widen(Narrow(v)), v) <= 500
    ensures Distance(Widen(Narrow(v)), v) <= Distance(Widen(q), v)
    ensures Narrow(-v) == -Narrow(v)
  {
    var n := Narrow(v);
    assert q <= n - 1 || q == n || n + 1 <= q;
  }

  /** Widening keeps the value and its twelve integer digits. */
  lemma WidenFits(v: int)
    ensures Fits(N18_6, v) <==> Fits(N21_9, Widen(v))
    ensures Narrow(Widen(v)) == v
  {
  }

  // ---------------------------------------------------------------- runs that lose something

  const EMPTY: Db := Db(BASE, SchemaAt(BASE), [], [])

  /** The empty database upgraded to `revision`, with `rows` written to it. */
  function Holding(revision: nat, rows: seq<Row>): Db {
    Db(revision, SchemaAt(revision), rows, [])
  }

  lemma {:induction false} UpgradedEmpty(revision: nat)
    requires BASE <= revision <= HEAD
    ensures UpgradedTo(EMPTY, revision) == Holding(revision, [])
  {
    if BASE < revision {
      UpgradedEmpty(revision - 1);
      UpgradedToNext(EMPTY, revision - 1);
    }
  }

  lemma {:induction false} RunTwo(db: Db, a: Event, b: Event)
    ensures Run(db, [a, b]) == Step(Step(db, a), b)
  {
    assert [a, b][1..] == [b] && [b][1..] == [];
    assert Run(Step(db, a), [b]) == Run(Step(Step(db, a), b), []);
  }

  lemma {:induction false} RunFour(db: Db, a: Event, b: Event, c: Event, d: Event)
    ensures Run(db, [a, b, c, d]) == Step(Step(Step(Step(db, a), b), c), d)
  {
    assert [a, b, c, d][1..] == [b, c, d] && [b, c, d][1..] == [c, d];
    assert Run(Step(db, a), [b, c, d]) == Run(Step(Step(db, a), b), [c, d]);
    RunTwo(Step(Step(db, a), b), c, d);
  }

  lemma {:induction false} RunFive(db: Db, a: Event, b: Event, c: Event, d: Event, e: Event)
    ensures Run(db, [a, b, c, d, e]) == Step(Step(Step(Step(Step(db, a), b), c), d), e)
  {
    assert [a, b, c, d, e][1..] == [b, c, d, e];
    RunFour(Step(db, a), b, c, d, e);
  }

  lemma UpFirst(revision: nat)
    requires BASE <= revision <= HEAD
    ensures Step(EMPTY, UpTo(revision)) == Holding(revision, [])
  {
    UpgradedEmpty(revision);
  }

  lemma WriteOne(revision: nat, rows: seq<Row>, row: Row, after: seq<Row>)
    requires Legal(SchemaAt(revision), row) && after == rows + [row]
    ensures Step(Holding(revision, rows), Write(Insert(row))) == Holding(revision, after)
  {
    hide Legal, SchemaAt;
  }

  /** A decision whose values are in the revision's vocabularies can be stored. */
  lemma PlainRowLegal(revision: nat, row: Row)
    requires BASE <= revision <= HEAD && row.plain == map[] && row.sizedUnits == None
    requires row.outcome.Some? && row.outcome.value in OutcomesAt(revision)
    requires row.code.Some? ==> revision >= 10 && row.code.value in CodesAt(revision)
    requires if revision < 7 then row.decidedBy == None && row.ruleId == None
             else row.decidedBy.Some? && row.decidedBy.value in DECIDED_BY_VALUES && RuleOk(row)
    ensures Legal(SchemaAt(revision), row)
  {
  }

  lemma DownOne(revision: nat, rows: seq<Row>, after: seq<Row>)
    requires BASE < revision < HEAD && after == DownRows(revision, rows) && AllLegal(SchemaAt(revision - 1), after, [])
    ensures Step(Holding(revision, rows), DownTo(revision - 1)) == Holding(revision - 1, after)
  {
    assert Downgraded(Holding(revision, rows)) == Some(Holding(revision - 1, after));
    assert DowngradedTo(Holding(revision - 1, after), revision - 1) == Some(Holding(revision - 1, after));
  }

  lemma UpOne(revision: nat, rows: seq<Row>, after: seq<Row>)
    requires revision + 1 < HEAD && after == UpRows(revision + 1, rows)
    ensures Step(Holding(revision, rows), UpTo(revision + 1)) == Holding(revision + 1, after)
  {
    assert Upgraded(Holding(revision, rows)) == Holding(revision + 1, after);
    assert UpgradedTo(Holding(revision + 1, after), revision + 1) == Holding(revision + 1, after);
  }

  function Decided(decider: Option<Decider>, ruleId: Option<string>): Row {
    Row(1, Some(OPEN), false, decider, ruleId, None, None, map[])
  }

  /** A decision of the rule engine, a downgrade past 0007 and back, and the decision reads as ICT's with no rule
      named. */
  lemma AttributionLost()
    ensures Run(EMPTY, [UpTo(7), Write(Insert(Decided(Some(RULE_ENGINE), Some("GATE-041")))), DownTo(6), UpTo(7)]) ==
              Holding(7, [Decided(Some(ICT), None)])
  {
    hide Run, Step, Legal, SchemaAt, WithoutColumns;
    PlainRowLegal(7, Decided(Some(RULE_ENGINE), Some("GATE-041")));
    PlainRowLegal(6, Decided(None, None));
    var row := Decided(Some(RULE_ENGINE), Some("GATE-041"));
    RunFour(EMPTY, UpTo(7), Write(Insert(row)), DownTo(6), UpTo(7));
    UpFirst(7);
    WriteOne(7, [], row, [row]);
    DownOne(7, [row], [Decided(None, None)]);
    UpOne(6, [Decided(None, None)], [Decided(Some(ICT), None)]);
  }

  function Refused(id: nat, outcome: Outcome, code: Option<Code>): Row {
    Row(id, Some(outcome), false, Some(ICT), None, code, None, map[])
  }

  lemma CodedDown()
    ensures DownRow(10, Refused(1, REJECTED, Some(ENTRY_DRIFT))) == Refused(1, REJECTED, None)
    ensures UpRow(10, Refused(1, REJECTED, None)) == Refused(1, REJECTED, Some(UNCODED_LEGACY))
  {
  }

  /** A coded rejection, a downgrade past 0010 and back, and the code reads as a legacy one. */
  lemma CodeLost()
    ensures Run(EMPTY, [UpTo(10), Write(Insert(Refused(1, REJECTED, Some(ENTRY_DRIFT)))), DownTo(9), UpTo(10)]) ==
              Holding(10, [Refused(1, REJECTED, Some(UNCODED_LEGACY))])
  {
    hide Run, Step, Legal, SchemaAt, Downgraded, DownRow, UpRow;
    CodedDown();
    PlainRowLegal(10, Refused(1, REJECTED, Some(ENTRY_DRIFT)));
    PlainRowLegal(9, Refused(1, REJECTED, None));
    var row, uncoded := Refused(1, REJECTED, Some(ENTRY_DRIFT)), Refused(1, REJECTED, None);
    var legacy := Refused(1, REJECTED, Some(UNCODED_LEGACY));
    RunFour(EMPTY, UpTo(10), Write(Insert(row)), DownTo(9), UpTo(10));
    UpFirst(10);
    WriteOne(10, [], row, [row]);
    DownOne(10, [row], [uncoded]);
    UpOne(9, [uncoded], [legacy]);
  }

  lemma RefusedDown(id: nat)
    ensures DownRow(8, Refused(id, REJECTED, None)) == Refused(id, ABSTAINED, None)
    ensures DownRow(8, Refused(id, ABSTAINED, None)) == Refused(id, ABSTAINED, None)
    ensures UpRow(8, Refused(id, ABSTAINED, None)) == Refused(id, ABSTAINED, None)
  {
  }

  /** A rejection rewritten by 0008's downgrade, the revision applied again, a second rejection, and a second
      downgrade: the old row, no rejection any more, reads like the one just rewritten. */
  lemma RewriteMistaken()
    ensures var first, second := Refused(1, REJECTED, None), Refused(2, REJECTED, None);
            var before := Run(EMPTY, [UpTo(8), Write(Insert(first)), DownTo(7), UpTo(8), Write(Insert(second))]);
            && before == Holding(8, [Refused(1, ABSTAINED, None), second])
            && Step(before, DownTo(7)) == Holding(7, [Refused(1, ABSTAINED, None), Refused(2, ABSTAINED, None)])
            && LooksRewritten(Step(before, DownTo(7)).rows[0]) && LooksRewritten(Step(before, DownTo(7)).rows[1])
  {
    hide Run, Step, Legal, SchemaAt, Downgraded, DownRow, UpRow;
    RefusedDown(1);
    RefusedDown(2);
    PlainRowLegal(8, Refused(1, REJECTED, None));
    PlainRowLegal(8, Refused(2, REJECTED, None));
    PlainRowLegal(7, Refused(1, ABSTAINED, None));
    PlainRowLegal(7, Refused(2, ABSTAINED, None));
    var first, second := Refused(1, REJECTED, None), Refused(2, REJECTED, None);
    var was, now := Refused(1, ABSTAINED, None), Refused(2, ABSTAINED, None);
    RunFive(EMPTY, UpTo(8), Write(Insert(first)), DownTo(7), UpTo(8), Write(Insert(second)));
    UpFirst(8);
    WriteOne(8, [], first, [first]);
    DownOne(8, [first], [was]);
    UpOne(7, [was], [was]);
    WriteOne(8, [was], second, [was, second]);
    DownOne(8, [was, second], [was, now]);
  }
}
