/** execute_update: gather, check, then replace row by row. */
module UpdateExecutor {
  import opened Ordering
  import opened Values
  import opened KeyOrder
  import opened KeyRefinement
  import opened RowCodec
  import opened DataFile
  import opened RowSources
  import opened Agreement
  import opened Planner
  import opened Dml
  import opened UpdateChecks
  import opened Executor

  datatype UpdatePair = UpdatePair(original: StoredRow, updated: Row)

  // ---------------------------------------------------------------- gathering

  /** fill_update_row: only values that differ are written, and any that does counts as a change. */
  method FillUpdateRow(row: Row, assignments: seq<Assignment>) returns (updated: Row, hasChanges: bool)
    requires forall i :: 0 <= i < |assignments| ==> assignments[i].column < |row|
    requires forall i, j :: 0 <= i < j < |assignments| ==> assignments[i].column != assignments[j].column
    ensures updated == Assigned(row, assignments)
    ensures hasChanges <==> updated != row
  {
    updated, hasChanges := row, false;
    for i := 0 to |assignments|
      invariant updated == Assigned(row, assignments[..i])
      invariant hasChanges <==> updated != row
    {
      var a := assignments[i];
      AssignOneMore(row, assignments, i);
      CompareZeroIffEqual(a.value, updated[a.column]);
      if CompareValue(a.value, updated[a.column]) != 0 {
        updated := updated[a.column := a.value];
        hasChanges := true;
      }
    }
    assert assignments[..|assignments|] == assignments;
  }

  lemma {:induction false} AssignOneMore(row: Row, assignments: seq<Assignment>, i: nat)
    requires i < |assignments| && forall k :: 0 <= k < |assignments| ==> assignments[k].column < |row|
    requires forall k, l :: 0 <= k < l < |assignments| ==> assignments[k].column != assignments[l].column
    ensures Assigned(row, assignments[..i + 1]) == Assigned(row, assignments[..i])[assignments[i].column := assignments[i].value]
    ensures Assigned(row, assignments[..i])[assignments[i].column] == row[assignments[i].column]
  {
    var a := assignments[..i + 1];
    assert a[..|a| - 1] == assignments[..i];
    AssignedAt(row, assignments[..i], assignments[i].column);
  }

  ghost function ToPairs(rows: seq<StoredRow>, assignments: seq<Assignment>): seq<UpdatePair> {
    if rows == [] then []
    else
      var updated := Assigned(rows[0].row, assignments);
      (if updated != rows[0].row then [UpdatePair(rows[0], updated)] else []) + ToPairs(rows[1..], assignments)
  }

  ghost function PairsAt(log: Log, hits: seq<nat>, assignments: seq<Assignment>): seq<UpdatePair> {
    seq(|hits|, k requires 0 <= k < |hits| => UpdatePair(RowsAt(log, hits)[k], NewRow(log, hits, assignments, k)))
  }

  lemma ToPairsCons(x: StoredRow, rows: seq<StoredRow>, assignments: seq<Assignment>)
    ensures ToPairs([x] + rows, assignments)
         == (if Assigned(x.row, assignments) != x.row then [UpdatePair(x, Assigned(x.row, assignments))] else []) + ToPairs(rows, assignments)
  {
    assert ([x] + rows)[1..] == rows;
  }

  /** What the gathering loop pairs up is the changing records, one by one. */
  lemma {:induction false} PairsAreHits(log: Log, conditions: Where, assignments: seq<Assignment>, i: nat)
    requires i <= |log|
    ensures ToPairs(Filter(LiveFrom(log, i), conditions), assignments)
         == PairsAt(log, Hits(log, Changing(conditions, assignments), i), assignments)
    decreases |log| - i
  {
    hide Matches, Assigned;
    if i < |log| {
      PairsAreHits(log, conditions, assignments, i + 1);
      var rest := Hits(log, Changing(conditions, assignments), i + 1);
      var x := StoredRow(log[i].row, log[i].at);
      if !log[i].dead {
        FilterCons(x, LiveFrom(log, i + 1), conditions);
        ToPairsCons(x, Filter(LiveFrom(log, i + 1), conditions), assignments);
        PairsCons(log, i, rest, assignments);
      }
      NothingInFront(rest);
      NothingInFront(Filter(LiveFrom(log, i + 1), conditions));
      NothingInFront(PairsAt(log, rest, assignments));
    }
  }

  lemma NothingInFront<T>(s: seq<T>)
    ensures [] + s == s
  {
  }

  lemma PairsCons(log: Log, i: nat, rest: seq<nat>, assignments: seq<Assignment>)
    requires i < |log|
    ensures PairsAt(log, [i] + rest, assignments)
         == [UpdatePair(StoredRow(log[i].row, log[i].at), Assigned(log[i].row, assignments))] + PairsAt(log, rest, assignments)
  {
    hide Assigned;
    var h := [i] + rest;
    assert forall k :: 0 < k < |h| ==> h[k] == rest[k - 1];
  }

  lemma PairStep(pairs: seq<UpdatePair>, row: StoredRow, rest: seq<StoredRow>, conditions: Where, assignments: seq<Assignment>)
    ensures pairs + ToPairs(Filter([row] + rest, conditions), assignments)
         == (if Matches(row.row, conditions) && Assigned(row.row, assignments) != row.row
             then pairs + [UpdatePair(row, Assigned(row.row, assignments))] else pairs) + ToPairs(Filter(rest, conditions), assignments)
  {
    hide Matches, Assigned;
    FilterCons(row, rest, conditions);
    ToPairsCons(row, Filter(rest, conditions), assignments);
    assert [] + Filter(rest, conditions) == Filter(rest, conditions);
  }

  lemma NoMorePairs(pairs: seq<UpdatePair>, rest: seq<StoredRow>, conditions: Where, assignments: seq<Assignment>)
    ensures rest == [] ==> pairs + ToPairs(Filter(rest, conditions), assignments) == pairs
  {
  }

  /** The first loop of execute_update. */
  method GatherUpdates(source: RowSource, conditions: Where, assignments: seq<Assignment>) returns (pairs: seq<UpdatePair>)
    requires source.Valid() && AllTyped(source.Remaining(), source.file.schema)
    requires ColumnsExist(conditions, source.file.schema) && AssignsColumns(assignments, source.file.schema)
    modifies source, source.file`pos
    ensures pairs == ToPairs(Filter(old(source.Remaining()), conditions), assignments)
  {
    hide Matches, Filter, LiveFrom, RowSource.Remaining, RowSource.Valid, Assigned, ToPairs, WellTyped;
    pairs := [];
    ghost var goal := ToPairs(Filter(source.Remaining(), conditions), assignments);
    while true
      invariant source.Valid() && AllTyped(source.Remaining(), source.file.schema)
      invariant pairs + ToPairs(Filter(source.Remaining(), conditions), assignments) == goal
      decreases |source.Remaining()|
    {
      NoMorePairs(pairs, source.Remaining(), conditions, assignments);
      var found, row := source.GetNext();
      if !found {
        return;
      }
      TypedCons(row, source.Remaining(), source.file.schema);
      PairStep(pairs, row, source.Remaining(), conditions, assignments);
      var matched := MatchesWhere(row.row, conditions);
      if matched {
        var updated, hasChanges := FillUpdateRow(row.row, assignments);
        if hasChanges {
          pairs := pairs + [UpdatePair(row, updated)];
        }
      }
    }
  }

  // ---------------------------------------------------------------- the two checks

  /** index_batch_has_duplicates. */
  method IndexBatchHasDuplicates(pairs: seq<UpdatePair>, parts: seq<KeyPart>) returns (duplicates: bool)
    requires forall k :: 0 <= k < |pairs| ==> PartsFit(parts, pairs[k].updated)
    ensures duplicates <==> exists k, l :: 0 <= k < l < |pairs| && SameColumns(parts, pairs[k].updated, pairs[l].updated)
  {
    hide CompareValue;
    for i := 0 to |pairs|
      invariant forall k, l :: 0 <= k < i && k < l < |pairs| ==> !SameColumns(parts, pairs[k].updated, pairs[l].updated)
    {
      for j := i + 1 to |pairs|
        invariant forall l :: i < l < j ==> !SameColumns(parts, pairs[i].updated, pairs[l].updated)
      {
        var duplicate := SameIndexColumns(parts, pairs[i].updated, pairs[j].updated);
        if duplicate {
          return true;
        }
      }
    }
    return false;
  }

  /** Its innermost loop: column by column, up to the first that differs. */
  method SameIndexColumns(parts: seq<KeyPart>, a: Row, b: Row) returns (duplicate: bool)
    requires PartsFit(parts, a) && PartsFit(parts, b)
    ensures duplicate <==> SameColumns(parts, a, b)
  {
    for p := 0 to |parts|
      invariant forall q :: 0 <= q < p ==> CompareValue(a[parts[q].pos], b[parts[q].pos]) == 0
    {
      if CompareValue(a[parts[p].pos], b[parts[p].pos]) != 0 {
        return false;
      }
    }
    return true;
  }

  lemma PairsFit(log: Log, schema: Schema, hits: seq<nat>, assignments: seq<Assignment>, parts: seq<KeyPart>)
    requires ValidUpdate(log, schema, hits, assignments) && ValidParts(parts, schema)
    ensures var pairs := PairsAt(log, hits, assignments);
      forall k :: 0 <= k < |pairs| ==> PartsFit(parts, pairs[k].updated)
  {
    var pairs := PairsAt(log, hits, assignments);
    forall k | 0 <= k < |pairs|
      ensures PartsFit(parts, pairs[k].updated)
    {
      NewRowIsTyped(log, schema, hits, assignments, k);
    }
  }

  /** Both checks passed: no index is in the way of the update. */
  ghost predicate AllCleared(defs: seq<IndexDefinition>, log: Log, schema: Schema, hits: seq<nat>, assignments: seq<Assignment>) {
    forall j :: 0 <= j < |defs| ==> Cleared(defs[j].parts, log, schema, hits, assignments)
  }

  /** The checks refuse the update, or all new keys are distinct and storing takes nothing from them. */
  ghost predicate BatchSafe(defs: seq<IndexDefinition>, log: Log, schema: Schema, hits: seq<nat>, assignments: seq<Assignment>) {
    || UpdateRefused(defs, log, hits, assignments)
    || forall j :: 0 <= j < |defs| ==>
         !BatchCollision(defs[j].parts, log, hits, assignments) && AllNewSteady(defs[j].parts, log, schema, hits, assignments)
  }

  /** Only prefix parts, and only when several rows change, let a collision pass; only a trailing space is lost. */
  lemma {:induction false} FullWidthIsSafe(defs: seq<IndexDefinition>, log: Log, schema: Schema, hits: seq<nat>, assignments: seq<Assignment>)
    requires ValidUpdate(log, schema, hits, assignments) && TidyAssignments(assignments, schema)
    requires |hits| <= 1 || forall j :: 0 <= j < |defs| ==> FullWidth(defs[j].parts, schema)
    ensures BatchSafe(defs, log, schema, hits, assignments)
  {
    hide ValidUpdate, Conflict, BatchDuplicate, FullWidth, KeyIn, NewRow, AllNewSteady, TidyAssignments;
    forall j | 0 <= j < |defs| && !UpdateRefused(defs, log, hits, assignments)
      ensures !BatchCollision(defs[j].parts, log, hits, assignments) && AllNewSteady(defs[j].parts, log, schema, hits, assignments)
    {
      TidyAssignmentsSteady(defs[j].parts, log, schema, hits, assignments);
      if |hits| > 1 { BatchCheckExact(defs[j].parts, log, schema, hits, assignments); }
    }
  }

  lemma ClearedUnlessRefused(defs: seq<IndexDefinition>, log: Log, schema: Schema, hits: seq<nat>, assignments: seq<Assignment>)
    requires BatchSafe(defs, log, schema, hits, assignments)
    ensures !UpdateRefused(defs, log, hits, assignments) ==> AllCleared(defs, log, schema, hits, assignments)
  {
    hide Conflict, BatchDuplicate, BatchCollision, AllNewSteady;
  }

  lemma PairAt(log: Log, hits: seq<nat>, assignments: seq<Assignment>, k: nat)
    requires k < |hits| && hits[k] < |log|
    ensures PairsAt(log, hits, assignments)[k] == UpdatePair(StoredRow(log[hits[k]].row, log[hits[k]].at), NewRow(log, hits, assignments, k))
  {
    assert RowsAt(log, hits)[k] == StoredRow(log[hits[k]].row, log[hits[k]].at);
  }

  /** What each index answers about the new key of record `k`. */
  lemma HeldByOther(indexes: seq<Index>, defs: seq<IndexDefinition>, log: Log, schema: Schema, hits: seq<nat>, assignments: seq<Assignment>, k: nat)
    requires AllAgree(indexes, defs, log) && ValidUpdate(log, schema, hits, assignments) && k < |hits|
    ensures var pair := PairsAt(log, hits, assignments)[k];
      forall j :: 0 <= j < |defs| ==>
        (KeyIn(defs[j].parts, pair.updated) in indexes[j] && indexes[j][KeyIn(defs[j].parts, pair.updated)] != pair.original.offset
         <==> ConflictOf(defs[j].parts, log, hits, assignments, k))
  {
    hide KeyIn, ValidLog, Bytes, NewRow, Agrees, ValidAssignments;
    assert LiveAt(log, hits[k]);
    var pair := PairsAt(log, hits, assignments)[k];
    PairAt(log, hits, assignments, k);
    forall j | 0 <= j < |defs|
      ensures KeyIn(defs[j].parts, pair.updated) in indexes[j] && indexes[j][KeyIn(defs[j].parts, pair.updated)] != pair.original.offset
         <==> ConflictOf(defs[j].parts, log, hits, assignments, k)
    {
      KeyHeldByOther(indexes[j], defs[j].parts, log, schema, pair.updated, hits[k]);
    }
  }

  /** The index the first check reports: the first new row with a conflict, and of its conflicts the first index. */
  ghost predicate FirstConflict(defs: seq<IndexDefinition>, log: Log, hits: seq<nat>, assignments: seq<Assignment>, j: int) {
    0 <= j < |defs| && exists k :: ConflictAt(defs, log, hits, assignments, j, k)
  }

  ghost predicate ConflictAt(defs: seq<IndexDefinition>, log: Log, hits: seq<nat>, assignments: seq<Assignment>, j: int, k: int)
    requires 0 <= j < |defs|
  {
    && ConflictOf(defs[j].parts, log, hits, assignments, k)
    && (forall i :: 0 <= i < j ==> !ConflictOf(defs[i].parts, log, hits, assignments, k))
    && (forall l, i :: 0 <= l < k && 0 <= i < |defs| ==> !ConflictOf(defs[i].parts, log, hits, assignments, l))
  }

  /** The index the second check reports: the first on which two new rows agree in all columns. */
  ghost predicate FirstDuplicate(defs: seq<IndexDefinition>, log: Log, hits: seq<nat>, assignments: seq<Assignment>, j: int) {
    && 0 <= j < |defs| && BatchDuplicate(defs[j].parts, log, hits, assignments)
    && forall i :: 0 <= i < j ==> !BatchDuplicate(defs[i].parts, log, hits, assignments)
  }

  ghost predicate AnyConflict(defs: seq<IndexDefinition>, log: Log, hits: seq<nat>, assignments: seq<Assignment>) {
    exists j :: 0 <= j < |defs| && Conflict(defs[j].parts, log, hits, assignments)
  }

  /** The first check: the key of some new row belongs to the row at another offset. */
  method CheckConflicts(indexSet: IndexSet, pairs: seq<UpdatePair>, ghost log: Log, ghost schema: Schema, ghost hits: seq<nat>, ghost assignments: seq<Assignment>)
    returns (clash: Option<nat>)
    requires indexSet.Valid() && AllAgree(indexSet.indexes, indexSet.defs, log)
    requires ValidUpdate(log, schema, hits, assignments) && pairs == PairsAt(log, hits, assignments)
    ensures clash.Some? ==> clash.value < |indexSet.defs| && Conflict(indexSet.defs[clash.value].parts, log, hits, assignments)
    ensures clash.Some? ==> FirstConflict(indexSet.defs, log, hits, assignments, clash.value)
    ensures clash.None? ==> forall j :: 0 <= j < |indexSet.defs| ==> !Conflict(indexSet.defs[j].parts, log, hits, assignments)
  {
    hide KeyIn, ValidLog, Bytes, NewRow, Agrees, ValidAssignments, ConflictOf;
    for k := 0 to |pairs|
      invariant forall l, j :: 0 <= l < k && 0 <= j < |indexSet.defs| ==> !ConflictOf(indexSet.defs[j].parts, log, hits, assignments, l)
    {
      HeldByOther(indexSet.indexes, indexSet.defs, log, schema, hits, assignments, k);
      clash := indexSet.HasConflict(pairs[k].updated, pairs[k].original.offset);
      if clash.Some? {
        assert ConflictAt(indexSet.defs, log, hits, assignments, clash.value, k);
        return;
      }
    }
    OutOfRange(indexSet.defs, log, hits, assignments);
    return None;
  }

  lemma OutOfRange(defs: seq<IndexDefinition>, log: Log, hits: seq<nat>, assignments: seq<Assignment>)
    ensures forall j, k :: 0 <= j < |defs| && !(0 <= k < |hits|) ==> !ConflictOf(defs[j].parts, log, hits, assignments, k)
  {
  }

  /** batch_check_unique_keys. */
  method BatchCheckUniqueKeys(defs: seq<IndexDefinition>, pairs: seq<UpdatePair>, ghost log: Log, ghost schema: Schema, ghost hits: seq<nat>, ghost assignments: seq<Assignment>)
    returns (clash: Option<nat>)
    requires ValidUpdate(log, schema, hits, assignments) && pairs == PairsAt(log, hits, assignments) && ValidDefinitions(defs, schema)
    ensures clash.Some? ==> FirstDuplicate(defs, log, hits, assignments, clash.value)
    ensures clash.None? ==> forall j :: 0 <= j < |defs| ==> !BatchDuplicate(defs[j].parts, log, hits, assignments)
  {
    hide ValidUpdate, NewRow, SameColumns, ValidParts;
    for j := 0 to |defs|
      invariant forall i :: 0 <= i < j ==> !BatchDuplicate(defs[i].parts, log, hits, assignments)
    {
      PairsFit(log, schema, hits, assignments, defs[j].parts);
      var duplicates := IndexBatchHasDuplicates(pairs, defs[j].parts);
      DuplicatesInPairs(pairs, defs[j].parts, log, hits, assignments);
      if duplicates {
        return Some(j);
      }
    }
    return None;
  }

  lemma DuplicatesInPairs(pairs: seq<UpdatePair>, parts: seq<KeyPart>, log: Log, hits: seq<nat>, assignments: seq<Assignment>)
    requires pairs == PairsAt(log, hits, assignments)
    ensures BatchDuplicate(parts, log, hits, assignments)
       <==> exists k, l :: 0 <= k < l < |pairs| && SameColumns(parts, pairs[k].updated, pairs[l].updated)
  {
    hide SameColumns, NewRow;
    assert |pairs| == |hits| && forall k :: 0 <= k < |pairs| ==> pairs[k].updated == NewRow(log, hits, assignments, k);
    if k, l :| 0 <= k < l < |hits| && SameColumns(parts, NewRow(log, hits, assignments, k), NewRow(log, hits, assignments, l)) {
      assert SameColumns(parts, pairs[k].updated, pairs[l].updated);
    }
  }

  // ---------------------------------------------------------------- replacing

  /** What the `n`-th step needs: the old key is there, the new one is free, the new row can be stored. */
  lemma StepReady(indexes: seq<Index>, defs: seq<IndexDefinition>, log: Log, schema: Schema, hits: seq<nat>, assignments: seq<Assignment>, n: nat)
    requires ValidUpdate(log, schema, hits, assignments) && n < |hits| && ValidDefinitions(defs, schema)
    requires AllCleared(defs, log, schema, hits, assignments) && AllAgree(indexes, defs, Updated(log, schema, hits, assignments, n))
    ensures var u := Updated(log, schema, hits, assignments, n);
      hits[n] < |log| && hits[n] < |u| && u[hits[n]] == log[hits[n]]
    ensures WellTypedRow(NewRow(log, hits, assignments, n), schema)
    ensures forall j :: 0 <= j < |defs| ==> KeyIn(defs[j].parts, log[hits[n]].row) in indexes[j]
    ensures forall j :: 0 <= j < |defs| ==> KeyIn(defs[j].parts, NewRow(log, hits, assignments, n)) !in indexes[j] - {KeyIn(defs[j].parts, log[hits[n]].row)}
  {
    hide KeyIn, Updated, NewRow, ValidUpdate, Cleared, Agrees, ValidParts;
    StillLive(log, schema, hits, assignments, n);
    NewRowIsTyped(log, schema, hits, assignments, n);
    forall j | 0 <= j < |defs|
      ensures KeyIn(defs[j].parts, log[hits[n]].row) in indexes[j]
      ensures KeyIn(defs[j].parts, NewRow(log, hits, assignments, n)) !in indexes[j] - {KeyIn(defs[j].parts, log[hits[n]].row)}
    {
      NewKeyIsFree(indexes[j], defs[j].parts, log, schema, hits, assignments, n);
    }
  }

  /** What the `n`-th step leaves: the log of the next step, and indexes that agree with it. */
  lemma StepDone(indexes: seq<Index>, after: seq<Index>, defs: seq<IndexDefinition>, log: Log, schema: Schema, hits: seq<nat>, assignments: seq<Assignment>, n: nat)
    requires ValidUpdate(log, schema, hits, assignments) && n < |hits| && ValidDefinitions(defs, schema)
    requires AllCleared(defs, log, schema, hits, assignments) && AllAgree(indexes, defs, Updated(log, schema, hits, assignments, n))
    requires hits[n] < |log| && |after| == |defs|
    requires forall j :: 0 <= j < |defs| ==>
      after[j] == (indexes[j] - {KeyIn(defs[j].parts, log[hits[n]].row)})
                  [KeyIn(defs[j].parts, NewRow(log, hits, assignments, n)) := End(Updated(log, schema, hits, assignments, n), schema)]
    ensures AllAgree(after, defs, Updated(log, schema, hits, assignments, n + 1))
  {
    hide KeyIn, Updated, NewRow, ValidUpdate, Cleared, Agrees, ValidParts, Bytes;
    UpdatedValid(log, schema, hits, assignments, n);
    forall j | 0 <= j < |defs|
      ensures Agrees(after[j], defs[j].parts, Updated(log, schema, hits, assignments, n + 1))
    {
      UpdateStepAgrees(indexes[j], defs[j].parts, log, schema, hits, assignments, n);
    }
  }

  /** The record the data file gets is the one the log of the next step ends with. */
  lemma StepLog(log: Log, schema: Schema, hits: seq<nat>, assignments: seq<Assignment>, n: nat)
    requires ValidUpdate(log, schema, hits, assignments) && n < |hits|
    ensures var u := Updated(log, schema, hits, assignments, n);
      && hits[n] < |u| && hits[n] < |log| && |NewRow(log, hits, assignments, n)| == |schema|
      && Updated(log, schema, hits, assignments, n + 1)
         == Kill(u, hits[n]) + [Record(End(u, schema), false, NormalRow(NewRow(log, hits, assignments, n), schema))]
      && End(Kill(u, hits[n]), schema) == End(u, schema)
  {
    hide Updated, Bytes, ValidLog, Kill;
    assert LiveAt(log, hits[n]);
    FramesInPlace(log, schema, hits[n]);
    StillLive(log, schema, hits, assignments, n);
    UpdatedValid(log, schema, hits, assignments, n);
    UpdatedStep(log, schema, hits, assignments, n);
    KillKeeps(Updated(log, schema, hits, assignments, n), schema, hits[n]);
  }

  /** One round of the replacing loop: delete and append in the file, delete and insert in every index. */
  method ReplaceRow(engine: Engine, indexSet: IndexSet, pair: UpdatePair, ghost log: Log, ghost hits: seq<nat>, ghost assignments: seq<Assignment>, ghost n: nat)
    requires engine.file.Valid() && engine.file.schema == engine.schema && ValidDefinitions(engine.defs, engine.schema)
    requires indexSet.Valid() && indexSet.defs == engine.defs
    requires ValidUpdate(log, engine.schema, hits, assignments)
    requires n < |hits| && pair == PairsAt(log, hits, assignments)[n]
    requires engine.file.log == Updated(log, engine.schema, hits, assignments, n)
    modifies engine.file, indexSet
    ensures engine.file.Valid() && indexSet.Valid()
    ensures engine.file.log == Updated(log, engine.schema, hits, assignments, n + 1)
    ensures AllCleared(engine.defs, log, engine.schema, hits, assignments) && old(AllAgree(indexSet.indexes, engine.defs, engine.file.log)) ==>
      AllAgree(indexSet.indexes, engine.defs, engine.file.log)
  {
    hide KeyIn, Updated, NewRow, Cleared, Agrees, ValidParts, Bytes, ValidLog, Kill, PairsAt, NormalRow, ValidAssignments, AllCleared, AllAgree;
    StillLive(log, engine.schema, hits, assignments, n);
    NewRowIsTyped(log, engine.schema, hits, assignments, n);
    StepLog(log, engine.schema, hits, assignments, n);
    PairAt(log, hits, assignments, n);
    ghost var before := indexSet.indexes;
    engine.file.DeleteRow(pair.original.offset, hits[n]);
    var offset := engine.file.InsertRow(pair.updated);
    var deleted, m := indexSet.DeleteAll(pair.original.row);
    indexSet.InsertAll(pair.updated, offset);
    if AllCleared(engine.defs, log, engine.schema, hits, assignments)
       && AllAgree(before, engine.defs, Updated(log, engine.schema, hits, assignments, n)) {
      StepReady(before, engine.defs, log, engine.schema, hits, assignments, n);
      StepDone(before, indexSet.indexes, engine.defs, log, engine.schema, hits, assignments, n);
    }
  }

  lemma UpdateFacts(log: Log, schema: Schema, conditions: Where, assignments: seq<Assignment>)
    requires ValidSchema(schema) && ValidLog(log, schema) && ValidAssignments(assignments, schema)
    ensures var hits := Changed(log, conditions, assignments);
      && ValidUpdate(log, schema, hits, assignments)
      && ToPairs(Filter(LiveRows(log), conditions), assignments) == PairsAt(log, hits, assignments)
      && |PairsAt(log, hits, assignments)| == |hits|
      && Updated(log, schema, hits, assignments, 0) == log
  {
    hide ValidLog, ValidSchema, ValidAssignments;
    HitsFacts(log, Changing(conditions, assignments), 0);
    PairsAreHits(log, conditions, assignments, 0);
  }

  method ExecuteUpdate(engine: Engine, conditions: Where, assignments: seq<Assignment>, decision: IndexDecision) returns (outcome: Outcome)
    requires engine.Valid() && Sound(decision, conditions, engine.defs) && ColumnsExist(conditions, engine.schema)
    requires ValidAssignments(assignments, engine.schema)
    modifies engine, engine.file
    ensures engine.WellFormed()
    ensures outcome.Duplicate? ==>
      var log, hits := old(engine.file.log), Changed(old(engine.file.log), conditions, assignments);
      exists j :: 0 <= j < |engine.defs| && outcome.indexName == engine.defs[j].name
        && if AnyConflict(engine.defs, log, hits, assignments) then FirstConflict(engine.defs, log, hits, assignments, j)
           else FirstDuplicate(engine.defs, log, hits, assignments, j)
    ensures BatchSafe(engine.defs, old(engine.file.log), engine.schema, Changed(old(engine.file.log), conditions, assignments), assignments) ==>
      engine.Valid()
    ensures var hits := Changed(old(engine.file.log), conditions, assignments);
      && (outcome.Duplicate? <==> UpdateRefused(engine.defs, old(engine.file.log), hits, assignments))
      && (outcome.Duplicate? ==> engine.file.log == old(engine.file.log) && engine.indexes == old(engine.indexes))
      && (!outcome.Duplicate? ==>
            && outcome == Affected(|hits|)
            && engine.file.log == Updated(old(engine.file.log), engine.schema, hits, assignments, |hits|))
  {
    hide KeyIn, Updated, ValidLog, Bytes, Conflict, BatchDuplicate, Agrees, ToPairs, PairsAt, Filter, LiveFrom, ValidUpdate, ValidParts, Hits;
    hide RowSource.Remaining, RowSource.Valid, Cleared, BatchSafe, ColumnsExist, AllAgree, WellTyped, FirstConflict;
    ghost var log := engine.file.log;
    ghost var hits := Changed(log, conditions, assignments);
    UpdateFacts(log, engine.schema, conditions, assignments);
    var indexSet := new IndexSet.Load(engine.defs, engine.indexes);
    var source := engine.CreateRowSource(decision, conditions);
    RowsTyped(source);
    var pairs := GatherUpdates(source, conditions, assignments);
    var clash := CheckConflicts(indexSet, pairs, log, engine.schema, hits, assignments);
    if clash.Some? {
      assert AnyConflict(engine.defs, log, hits, assignments);
      return Duplicate(engine.defs[clash.value].name);
    }
    clash := BatchCheckUniqueKeys(engine.defs, pairs, log, engine.schema, hits, assignments);
    if clash.Some? {
      return Duplicate(engine.defs[clash.value].name);
    }
    if BatchSafe(engine.defs, log, engine.schema, hits, assignments) {
      ClearedUnlessRefused(engine.defs, log, engine.schema, hits, assignments);
    }
    for k := 0 to |pairs|
      invariant engine.file.Valid() && indexSet.Valid() && indexSet.defs == engine.defs
      invariant engine.file.log == Updated(log, engine.schema, hits, assignments, k)
      invariant BatchSafe(engine.defs, log, engine.schema, hits, assignments) ==> AllAgree(indexSet.indexes, engine.defs, engine.file.log)
      invariant engine.indexes == old(engine.indexes)
    {
      ReplaceRow(engine, indexSet, pairs[k], log, hits, assignments, k);
    }
    engine.indexes := indexSet.indexes;
    return Affected(|pairs|);
  }
}
