/** What insert, delete and update do to the log, and why every index can follow. */
module Dml {
  import opened Ordering
  import opened Values
  import opened KeyOrder
  import opened KeyRefinement
  import opened RowCodec
  import opened DataFile
  import opened RowSources
  import opened Agreement
  import opened Planner

  // ---------------------------------------------------------------- the records an operation is about

  /** The live records from `i` on whose rows satisfy `keep`, in file order. */
  ghost function Hits(log: Log, keep: Row -> bool, i: nat): seq<nat>
    requires i <= |log|
    decreases |log| - i
  {
    if i == |log| then []
    else (if !log[i].dead && keep(log[i].row) then [i] else []) + Hits(log, keep, i + 1)
  }

  lemma {:induction false} HitsFacts(log: Log, keep: Row -> bool, i: nat)
    requires i <= |log|
    ensures var h := Hits(log, keep, i);
      && (forall k :: 0 <= k < |h| ==> i <= h[k] && LiveAt(log, h[k]) && keep(log[h[k]].row))
      && (forall k, l :: 0 <= k < l < |h| ==> h[k] < h[l])
      && (forall r :: i <= r && LiveAt(log, r) && keep(log[r].row) ==> r in h)
    decreases |log| - i
  {
    if i < |log| { HitsFacts(log, keep, i + 1); }
  }

  ghost function RowsAt(log: Log, hits: seq<nat>): seq<StoredRow> {
    seq(|hits|, k requires 0 <= k < |hits| =>
      if hits[k] < |log| then StoredRow(log[hits[k]].row, log[hits[k]].at) else StoredRow([], 0))
  }

  ghost function Matching(conditions: Where): Row -> bool {
    row => Matches(row, conditions)
  }

  /** What an executor collects from its source is the matching live records, one by one. */
  lemma {:induction false} FilterIsHits(log: Log, conditions: Where, i: nat)
    requires i <= |log|
    ensures Filter(LiveFrom(log, i), conditions) == RowsAt(log, Hits(log, Matching(conditions), i))
    decreases |log| - i
  {
    hide Matches;
    if i < |log| {
      FilterIsHits(log, conditions, i + 1);
      var rest := Hits(log, Matching(conditions), i + 1);
      if !log[i].dead {
        FilterCons(StoredRow(log[i].row, log[i].at), LiveFrom(log, i + 1), conditions);
        assert RowsAt(log, [i] + rest) == [StoredRow(log[i].row, log[i].at)] + RowsAt(log, rest);
      } else {
        assert [] + rest == rest;
      }
    }
  }

  // ---------------------------------------------------------------- deletion

  /** The log with some of its records deleted. */
  ghost function KillAll(log: Log, hits: seq<nat>): Log {
    seq(|log|, i requires 0 <= i < |log| => if i in hits then log[i].(dead := true) else log[i])
  }

  lemma KillOneMore(log: Log, hits: seq<nat>, n: nat)
    requires n < |hits| && hits[n] < |log|
    ensures KillAll(log, hits[..n + 1]) == Kill(KillAll(log, hits[..n]), hits[n])
  {
    assert hits[..n + 1] == hits[..n] + [hits[n]];
  }

  lemma KillNone(log: Log)
    ensures KillAll(log, []) == log
  {
  }

  /** Deleting leaves every frame where it is. */
  lemma {:induction false} KillAllKeeps(log: Log, schema: Schema, hits: seq<nat>)
    requires ValidLog(log, schema) && forall k :: 0 <= k < |hits| ==> hits[k] < |log|
    ensures ValidLog(KillAll(log, hits), schema) && End(KillAll(log, hits), schema) == End(log, schema)
    decreases |hits|
  {
    hide ValidLog, Bytes;
    if hits == [] {
      KillNone(log);
    } else {
      var n := |hits| - 1;
      KillAllKeeps(log, schema, hits[..n]);
      KillOneMore(log, hits, n);
      assert hits[..n + 1] == hits;
      KillKeeps(KillAll(log, hits[..n]), schema, hits[n]);
    }
  }

  /** The log after deleting every row that matches. */
  ghost function DeleteMatching(log: Log, conditions: Where): Log {
    KillAll(log, Hits(log, Matching(conditions), 0))
  }

  /** It is the log in which exactly the matching rows are dead. */
  lemma {:induction false} DeleteMatchingIs(log: Log, conditions: Where, i: nat)
    requires i < |log|
    ensures |DeleteMatching(log, conditions)| == |log|
    ensures DeleteMatching(log, conditions)[i].at == log[i].at && DeleteMatching(log, conditions)[i].row == log[i].row
    ensures LiveAt(DeleteMatching(log, conditions), i) <==> LiveAt(log, i) && !Matches(log[i].row, conditions)
  {
    hide Matches;
    HitsFacts(log, Matching(conditions), 0);
  }

  // ---------------------------------------------------------------- update

  datatype Assignment = Assignment(column: nat, value: DataValue)

  /** The row with all assignments made. */
  function Assigned(row: Row, assignments: seq<Assignment>): (r: Row)
    ensures |r| == |row|
  {
    if assignments == [] then row
    else
      var last := assignments[|assignments| - 1];
      var before := Assigned(row, assignments[..|assignments| - 1]);
      if last.column < |row| then before[last.column := last.value] else before
  }

  /** Assignments to columns there are, each named once. */
  ghost predicate AssignsColumns(assignments: seq<Assignment>, schema: Schema) {
    && (forall i :: 0 <= i < |assignments| ==> assignments[i].column < |schema|)
    && (forall i, j :: 0 <= i < j < |assignments| ==> assignments[i].column != assignments[j].column)
  }

  ghost predicate ValidAssignments(assignments: seq<Assignment>, schema: Schema) {
    && AssignsColumns(assignments, schema)
    && (forall i :: 0 <= i < |assignments| ==> WellTyped(assignments[i].value, schema[assignments[i].column]))
  }

  lemma {:induction false} AssignedAt(row: Row, assignments: seq<Assignment>, c: nat)
    requires c < |row|
    ensures Assigned(row, assignments)[c]
         == if exists i :: 0 <= i < |assignments| && assignments[i].column == c then LastFor(assignments, c) else row[c]
    decreases |assignments|
  {
    if assignments != [] {
      var front := assignments[..|assignments| - 1];
      AssignedAt(row, front, c);
      if assignments[|assignments| - 1].column != c {
        if i :| 0 <= i < |assignments| && assignments[i].column == c { assert front[i].column == c; }
      }
    }
  }

  /** The value of the last assignment to a column. */
  ghost function LastFor(assignments: seq<Assignment>, c: nat): DataValue {
    if assignments == [] then IntVal(0)
    else if assignments[|assignments| - 1].column == c then assignments[|assignments| - 1].value
    else LastFor(assignments[..|assignments| - 1], c)
  }

  lemma {:induction false} LastForIsAssigned(assignments: seq<Assignment>, c: nat, i: nat)
    requires i < |assignments| && assignments[i].column == c
    ensures exists j :: 0 <= j < |assignments| && assignments[j].column == c && LastFor(assignments, c) == assignments[j].value
    decreases |assignments|
  {
    var n := |assignments| - 1;
    if assignments[n].column != c {
      LastForIsAssigned(assignments[..n], c, i);
      var j :| 0 <= j < n && assignments[..n][j].column == c && LastFor(assignments[..n], c) == assignments[..n][j].value;
      assert assignments[j].column == c;
    }
  }

  /** A column takes the value assigned to it last, */
  lemma {:induction false} LastAssignmentWins(row: Row, assignments: seq<Assignment>, k: nat)
    requires k < |assignments| && assignments[k].column < |row|
    requires forall i :: k < i < |assignments| ==> assignments[i].column != assignments[k].column
    ensures Assigned(row, assignments)[assignments[k].column] == assignments[k].value
    decreases |assignments|
  {
    if k < |assignments| - 1 {
      LastAssignmentWins(row, assignments[..|assignments| - 1], k);
    }
  }

  /** and keeps its own if none is. */
  lemma {:induction false} OthersKept(row: Row, assignments: seq<Assignment>, c: nat)
    requires c < |row| && forall i :: 0 <= i < |assignments| ==> assignments[i].column != c
    ensures Assigned(row, assignments)[c] == row[c]
    decreases |assignments|
  {
    if assignments != [] {
      OthersKept(row, assignments[..|assignments| - 1], c);
    }
  }

  /** The rows an update changes: matching, and not already as assigned. */
  ghost function Changing(conditions: Where, assignments: seq<Assignment>): Row -> bool {
    row => Matches(row, conditions) && Assigned(row, assignments) != row
  }

  /** The log after the first `n` of the update's delete-and-append steps. */
  ghost function Updated(log: Log, schema: Schema, hits: seq<nat>, assignments: seq<Assignment>, n: nat): Log
    requires n <= |hits|
  {
    if n == 0 then log
    else
      var before := Updated(log, schema, hits, assignments, n - 1);
      if hits[n - 1] >= |log| || |before| < |log| then before
      else
        var killed := Kill(before, hits[n - 1]);
        killed + [Record(End(killed, schema), false, NormalAssigned(log[hits[n - 1]].row, schema, assignments))]
  }

  /** The row an update stores. */
  ghost function NormalAssigned(row: Row, schema: Schema, assignments: seq<Assignment>): Row {
    if |row| == |schema| then NormalRow(Assigned(row, assignments), schema) else row
  }

  /** A log in which the first `n` originals are dead and `n` new rows stand at the end. */
  ghost predicate UpdateShape(log: Log, schema: Schema, hits: seq<nat>, assignments: seq<Assignment>, n: nat, u: Log) {
    && n <= |hits| && |u| == |log| + n
    && (forall i :: 0 <= i < |log| ==> u[i] == if i in hits[..n] then log[i].(dead := true) else log[i])
    && (forall r :: |log| <= r < |u| && hits[r - |log|] < |log| ==>
          !u[r].dead && u[r].row == NormalAssigned(log[hits[r - |log|]].row, schema, assignments))
  }

  lemma UpdateShapeStep(log: Log, schema: Schema, hits: seq<nat>, assignments: seq<Assignment>, n: nat, u: Log, at: nat)
    requires n < |hits| && UpdateShape(log, schema, hits, assignments, n, u) && hits[n] < |log|
    ensures var v := Kill(u, hits[n]) + [Record(at, false, NormalAssigned(log[hits[n]].row, schema, assignments))];
      UpdateShape(log, schema, hits, assignments, n + 1, v)
  {
    hide NormalAssigned;
    assert hits[..n + 1] == hits[..n] + [hits[n]];
  }

  lemma {:induction false} UpdatedIs(log: Log, schema: Schema, hits: seq<nat>, assignments: seq<Assignment>, n: nat)
    requires n <= |hits| && forall k :: 0 <= k < |hits| ==> hits[k] < |log|
    ensures UpdateShape(log, schema, hits, assignments, n, Updated(log, schema, hits, assignments, n))
    decreases n
  {
    hide NormalAssigned, UpdateShape, Bytes, Kill, Updated;
    if n == 0 {
      NothingUpdated(log, schema, hits, assignments);
    } else {
      var before := Updated(log, schema, hits, assignments, n - 1);
      UpdatedIs(log, schema, hits, assignments, n - 1);
      ShapeLength(log, schema, hits, assignments, n - 1, before);
      UpdatedStep(log, schema, hits, assignments, n - 1);
      UpdateShapeStep(log, schema, hits, assignments, n - 1, before, End(Kill(before, hits[n - 1]), schema));
    }
  }

  lemma NothingUpdated(log: Log, schema: Schema, hits: seq<nat>, assignments: seq<Assignment>)
    ensures UpdateShape(log, schema, hits, assignments, 0, log) && Updated(log, schema, hits, assignments, 0) == log
  {
  }

  lemma UpdatedStep(log: Log, schema: Schema, hits: seq<nat>, assignments: seq<Assignment>, n: nat)
    requires n < |hits| && hits[n] < |log| <= |Updated(log, schema, hits, assignments, n)|
    ensures var killed := Kill(Updated(log, schema, hits, assignments, n), hits[n]);
      Updated(log, schema, hits, assignments, n + 1)
      == killed + [Record(End(killed, schema), false, NormalAssigned(log[hits[n]].row, schema, assignments))]
  {
    hide Bytes, Kill, NormalAssigned;
  }

  lemma ShapeLength(log: Log, schema: Schema, hits: seq<nat>, assignments: seq<Assignment>, n: nat, u: Log)
    requires UpdateShape(log, schema, hits, assignments, n, u)
    ensures |u| == |log| + n
  {
  }
}
