/** Whole runs of statements: the indexes always agree with the data file, and keys stay unique. */
module Runs {
  import opened Ordering
  import opened Values
  import opened KeyOrder
  import opened KeyRefinement
  import opened RowCodec
  import opened DataFile
  import opened RowSources
  import opened Agreement
  import opened Planner
  import opened Dml
  import opened UpdateChecks
  import opened Executor
  import opened UpdateExecutor

  datatype Statement =
    | InsertInto(values: Row)
    | DeleteFrom(conditions: Where)
    | UpdateSet(conditions: Where, assignments: seq<Assignment>)

  /** What the stages before the executor make sure of, and what they should. */
  ghost predicate Typed(s: Statement, schema: Schema) {
    match s
    case InsertInto(values) => WellTypedRow(values, schema)
    case DeleteFrom(conditions) => ColumnsExist(conditions, schema)
    case UpdateSet(conditions, assignments) => ColumnsExist(conditions, schema) && ValidAssignments(assignments, schema)
  }

  /** The guards under which the indexes agree with the file afterwards. */
  ghost predicate Guarded(s: Statement, schema: Schema, defs: seq<IndexDefinition>, log: Log)
    requires Typed(s, schema)
  {
    match s
    case InsertInto(values) => InsertSafe(defs, schema, log, values)
    case DeleteFrom(conditions) => true
    case UpdateSet(conditions, assignments) => BatchSafe(defs, log, schema, Changed(log, conditions, assignments), assignments)
  }

  ghost predicate ValidStatement(s: Statement, schema: Schema, defs: seq<IndexDefinition>, log: Log) {
    Typed(s, schema) && Guarded(s, schema, defs, log)
  }

  /** What a statement does to the log; the indexes follow from it. */
  ghost function Step(log: Log, schema: Schema, defs: seq<IndexDefinition>, s: Statement): Log {
    match s
    case InsertInto(values) =>
      if |values| != |schema| || KeyTaken(defs, log, values) then log
      else log + [Record(End(log, schema), false, NormalRow(values, schema))]
    case DeleteFrom(conditions) => DeleteMatching(log, conditions)
    case UpdateSet(conditions, assignments) =>
      var hits := Changed(log, conditions, assignments);
      if UpdateRefused(defs, log, hits, assignments) then log else Updated(log, schema, hits, assignments, |hits|)
  }

  ghost predicate ValidRun(run: seq<Statement>, schema: Schema, defs: seq<IndexDefinition>, log: Log) {
    run != [] ==> ValidStatement(run[0], schema, defs, log) && ValidRun(run[1..], schema, defs, Step(log, schema, defs, run[0]))
  }

  ghost function Run(run: seq<Statement>, schema: Schema, defs: seq<IndexDefinition>, log: Log): Log {
    if run == [] then log else Run(run[1..], schema, defs, Step(log, schema, defs, run[0]))
  }

  ghost function KeysOf(defs: seq<IndexDefinition>, row: Row): seq<Key> {
    seq(|defs|, j requires 0 <= j < |defs| => KeyIn(defs[j].parts, row))
  }

  lemma InsertStep(indexes: seq<Index>, defs: seq<IndexDefinition>, log: Log, schema: Schema, values: Row) returns (after: seq<Index>)
    requires AllAgree(indexes, defs, log) && ValidDefinitions(defs, schema)
    requires ValidLog(log, schema) && WellTypedRow(values, schema) && InsertSafe(defs, schema, log, values)
    ensures AllAgree(after, defs, Step(log, schema, defs, InsertInto(values)))
  {
    hide KeyIn, NormalRow, Agrees, Taken, WellTyped, AllSteady, ValidParts, Bytes, ValidLog;
    InIndexIffTaken(indexes, defs, log, values);
    if KeyTaken(defs, log, values) {
      after := indexes;
    } else {
      var keys := KeysOf(defs, values);
      var at: FileOffset := End(log, schema);
      after := seq(|defs|, j requires 0 <= j < |defs| => indexes[j][keys[j] := at]);
      InsertAgrees(indexes, after, defs, log, schema, values, End(log, schema));
    }
  }

  lemma {:induction false} DeleteStep(indexes: seq<Index>, defs: seq<IndexDefinition>, log: Log, schema: Schema, hits: seq<nat>, n: nat)
    returns (after: seq<Index>)
    requires AllAgree(indexes, defs, log) && ValidLog(log, schema) && Increasing(log, hits) && n <= |hits|
    ensures AllAgree(after, defs, KillAll(log, hits[..n])) && ValidLog(KillAll(log, hits[..n]), schema)
    decreases n
  {
    hide KeyIn, Agrees, KillAll, ValidLog, Bytes;
    if n == 0 {
      NothingYet(log, hits);
      after := indexes;
    } else {
      var before := DeleteStep(indexes, defs, log, schema, hits, n - 1);
      KillOneMore(log, hits, n - 1);
      KillAllKeeps(log, schema, hits[..n]);
      NotKilledYet(log, hits, n - 1);
      var less := KillAll(log, hits[..n - 1]);
      var keys := KeysOf(defs, less[hits[n - 1]].row);
      after := seq(|defs|, j requires 0 <= j < |defs| => before[j] - {keys[j]});
      DeleteAgrees(before, after, defs, less, schema, hits[n - 1]);
    }
  }

  lemma NotKilledYet(log: Log, hits: seq<nat>, n: nat)
    requires Increasing(log, hits) && n < |hits|
    ensures LiveAt(KillAll(log, hits[..n]), hits[n])
  {
    assert LiveAt(log, hits[n]);
  }

  lemma {:induction false} UpdateStep(indexes: seq<Index>, defs: seq<IndexDefinition>, log: Log, schema: Schema, hits: seq<nat>,
                                      assignments: seq<Assignment>, n: nat) returns (after: seq<Index>)
    requires ValidUpdate(log, schema, hits, assignments) && ValidDefinitions(defs, schema) && AllCleared(defs, log, schema, hits, assignments)
    requires AllAgree(indexes, defs, log) && n <= |hits|
    ensures AllAgree(after, defs, Updated(log, schema, hits, assignments, n))
    decreases n
  {
    hide KeyIn, Agrees, Cleared, NewRow, ValidUpdate, ValidParts, Bytes;
    if n == 0 {
      after := indexes;
    } else {
      var before := UpdateStep(indexes, defs, log, schema, hits, assignments, n - 1);
      hide Updated;
      StepReady(before, defs, log, schema, hits, assignments, n - 1);
      var was := KeysOf(defs, log[hits[n - 1]].row);
      var will := KeysOf(defs, NewRow(log, hits, assignments, n - 1));
      var at: FileOffset := End(Updated(log, schema, hits, assignments, n - 1), schema);
      after := seq(|defs|, j requires 0 <= j < |defs| => (before[j] - {was[j]})[will[j] := at]);
      StepDone(before, after, defs, log, schema, hits, assignments, n - 1);
    }
  }

  lemma StepKeepsLog(log: Log, schema: Schema, defs: seq<IndexDefinition>, s: Statement)
    requires ValidSchema(schema) && ValidLog(log, schema) && ValidStatement(s, schema, defs, log)
    ensures ValidLog(Step(log, schema, defs, s), schema)
  {
    hide ValidLog, Bytes, KeyTaken, UpdateRefused, ValidSchema, WellTyped, NormalRow;
    match s
    case InsertInto(values) =>
      NormalRowIsFixed(values, schema);
      AppendKeeps(log, schema, NormalRow(values, schema));
    case DeleteFrom(conditions) =>
      HitsFacts(log, Matching(conditions), 0);
      KillAllKeeps(log, schema, Hits(log, Matching(conditions), 0));
    case UpdateSet(conditions, assignments) =>
      UpdateFacts(log, schema, conditions, assignments);
      UpdatedValid(log, schema, Changed(log, conditions, assignments), assignments, |Changed(log, conditions, assignments)|);
  }

  /** One statement: if there are indexes that agree before it, there are after it. */
  lemma {:induction false} StepAgrees(indexes: seq<Index>, defs: seq<IndexDefinition>, log: Log, schema: Schema, s: Statement)
    returns (after: seq<Index>)
    requires ValidSchema(schema) && ValidLog(log, schema) && ValidDefinitions(defs, schema) && ValidStatement(s, schema, defs, log)
    requires AllAgree(indexes, defs, log)
    ensures ValidLog(Step(log, schema, defs, s), schema) && AllAgree(after, defs, Step(log, schema, defs, s))
  {
    hide ValidLog, Bytes, UpdateRefused, ValidSchema, AllAgree, ValidDefinitions, Updated, KillAll, Hits;
    StepKeepsLog(log, schema, defs, s);
    match s
    case InsertInto(values) =>
      after := InsertStep(indexes, defs, log, schema, values);
    case DeleteFrom(conditions) =>
      var hits := Hits(log, Matching(conditions), 0);
      MatchingHits(log, conditions);
      after := DeleteStep(indexes, defs, log, schema, hits, |hits|);
      assert hits[..|hits|] == hits;
    case UpdateSet(conditions, assignments) =>
      var hits := Changed(log, conditions, assignments);
      UpdateFacts(log, schema, conditions, assignments);
      ClearedUnlessRefused(defs, log, schema, hits, assignments);
      if UpdateRefused(defs, log, hits, assignments) {
        after := indexes;
      } else {
        after := UpdateStep(indexes, defs, log, schema, hits, assignments, |hits|);
      }
  }

  /** What the replacing loop makes of all indexes. */
  ghost function IndexesAfter(indexes: seq<Index>, defs: seq<IndexDefinition>, log: Log, schema: Schema, hits: seq<nat>, assignments: seq<Assignment>): seq<Index>
    requires |indexes| == |defs|
  {
    seq(|defs|, j requires 0 <= j < |defs| => IndexAfter(indexes[j], defs[j].parts, log, schema, hits, assignments, |hits|))
  }

  /** Exactly when an update the checks let through leaves every index in agreement. */
  lemma {:induction false} UpdateAgreesIffSafe(indexes: seq<Index>, defs: seq<IndexDefinition>, log: Log, schema: Schema,
                                               conditions: Where, assignments: seq<Assignment>)
    requires ValidSchema(schema) && ValidLog(log, schema) && ValidDefinitions(defs, schema) && AllAgree(indexes, defs, log)
    requires ValidAssignments(assignments, schema)
    requires !UpdateRefused(defs, log, Changed(log, conditions, assignments), assignments)
    ensures var hits := Changed(log, conditions, assignments);
      AllAgree(IndexesAfter(indexes, defs, log, schema, hits, assignments), defs, Step(log, schema, defs, UpdateSet(conditions, assignments)))
      <==> BatchSafe(defs, log, schema, hits, assignments)
  {
    hide ValidLog, Bytes, ValidSchema, Updated, Hits, Agrees, BatchCollision, AllNewSteady, IndexAfter, Conflict, BatchDuplicate, ValidParts, ValidAssignments;
    var hits := Changed(log, conditions, assignments);
    UpdateFacts(log, schema, conditions, assignments);
    forall j | 0 <= j < |defs|
      ensures Agrees(IndexAfter(indexes[j], defs[j].parts, log, schema, hits, assignments, |hits|), defs[j].parts, Updated(log, schema, hits, assignments, |hits|))
         <==> !BatchCollision(defs[j].parts, log, hits, assignments) && AllNewSteady(defs[j].parts, log, schema, hits, assignments)
    {
      UpdateAgreesIff(indexes[j], defs[j].parts, log, schema, hits, assignments);
    }
  }

  /** Every run keeps agreement: from indexes that agree with a log to indexes that agree with what the run makes of it. */
  lemma {:induction false} RunAgrees(indexes: seq<Index>, defs: seq<IndexDefinition>, log: Log, schema: Schema, run: seq<Statement>)
    returns (after: seq<Index>)
    requires ValidSchema(schema) && ValidLog(log, schema) && ValidDefinitions(defs, schema) && ValidRun(run, schema, defs, log)
    requires AllAgree(indexes, defs, log)
    ensures ValidLog(Run(run, schema, defs, log), schema) && AllAgree(after, defs, Run(run, schema, defs, log))
    decreases |run|
  {
    hide ValidLog, ValidSchema, AllAgree, ValidDefinitions, Step, ValidStatement;
    if run == [] {
      after := indexes;
    } else {
      var next := StepAgrees(indexes, defs, log, schema, run[0]);
      after := RunAgrees(next, defs, Step(log, schema, defs, run[0]), schema, run[1..]);
    }
  }

  /** In every table reached from an empty one, no two live rows share a key of any index. */
  lemma {:induction false} RunsKeepKeysUnique(defs: seq<IndexDefinition>, schema: Schema, run: seq<Statement>, j: nat)
    requires ValidSchema(schema) && ValidDefinitions(defs, schema) && ValidRun(run, schema, defs, []) && j < |defs|
    ensures KeysUnique(defs[j].parts, Run(run, schema, defs, []))
  {
    hide ValidSchema, ValidDefinitions, Step, ValidStatement, ValidRun, Run, KeysUnique, Agrees;
    var none: seq<Index> := seq(|defs|, _ => map[]);
    forall i | 0 <= i < |defs| ensures Agrees(none[i], defs[i].parts, []) { EmptyAgrees(defs[i].parts); }
    var after := RunAgrees(none, defs, [], schema, run);
    AgreementMeansUnique(after[j], defs[j].parts, Run(run, schema, defs, []), schema);
  }

  /** The engine takes exactly these steps, whatever plan the statement was given; the guards are for the indexes. */
  method Execute(engine: Engine, s: Statement, decision: IndexDecision) returns (outcome: Outcome)
    requires engine.Valid() && Typed(s, engine.schema)
    requires !s.InsertInto? ==> Sound(decision, s.conditions, engine.defs)
    modifies engine, engine.file
    ensures engine.WellFormed() && engine.file.log == Step(old(engine.file.log), engine.schema, engine.defs, s)
    ensures Guarded(s, engine.schema, engine.defs, old(engine.file.log)) ==> engine.Valid()
  {
    hide ValidLog, Bytes, AllAgree, Updated, Hits, UpdateRefused, KeyTaken, WellTyped, InsertSafe, ValidAssignments, BatchSafe;
    match s
    case InsertInto(values) => outcome := engine.ExecuteInsert(values);
    case DeleteFrom(conditions) => outcome := engine.ExecuteDelete(conditions, decision);
    case UpdateSet(conditions, assignments) => outcome := ExecuteUpdate(engine, conditions, assignments, decision);
  }
}
