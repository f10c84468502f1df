/** Where clauses, the choice of an index for one, and why the choice changes nothing. */
module Planner {
  import opened Ordering
  import opened Values
  import opened KeyOrder
  import opened KeyRefinement
  import opened RowCodec
  import opened DataFile
  import opened RowSources
  import opened Agreement

  datatype Predicate = Predicate(column: nat, op: ConditionOp, value: DataValue)

  type Where = seq<Predicate>

  /** matches_where: every predicate holds of the row. */
  predicate Matches(row: Row, conditions: Where) {
    forall i :: 0 <= i < |conditions| ==>
      conditions[i].column < |row| && MatchesOp(conditions[i].op, CompareValue(row[conditions[i].column], conditions[i].value))
  }

  ghost predicate ColumnsExist(conditions: Where, schema: Schema) {
    forall i :: 0 <= i < |conditions| ==> conditions[i].column < |schema|
  }

  method MatchesWhere(row: Row, conditions: Where) returns (matched: bool)
    requires forall i :: 0 <= i < |conditions| ==> conditions[i].column < |row|
    ensures matched <==> Matches(row, conditions)
  {
    for i := 0 to |conditions|
      invariant forall j :: 0 <= j < i ==> MatchesOp(conditions[j].op, CompareValue(row[conditions[j].column], conditions[j].value))
    {
      var cmp := CompareValue(row[conditions[i].column], conditions[i].value);
      if !MatchesOp(conditions[i].op, cmp) {
        return false;
      }
    }
    return true;
  }

  /** What any executor sees of a source: the rows that match, in the order they come. */
  ghost function Filter(rows: seq<StoredRow>, conditions: Where): seq<StoredRow> {
    if rows == [] then []
    else (if Matches(rows[0].row, conditions) then [rows[0]] else []) + Filter(rows[1..], conditions)
  }

  // ---------------------------------------------------------------- choosing an index

  /** The first predicate on a column, if the index supports its operator. */
  ghost function Covering(pos: nat, conditions: Where): Option<Predicate> {
    if conditions == [] then None
    else if conditions[0].column == pos then (if conditions[0].op == Equals then Some(conditions[0]) else None)
    else Covering(pos, conditions[1..])
  }

  /** column_covered. */
  method ColumnCovered(pos: nat, conditions: Where) returns (p: Option<Predicate>)
    ensures p == Covering(pos, conditions)
  {
    for i := 0 to |conditions|
      invariant Covering(pos, conditions) == Covering(pos, conditions[i..])
    {
      assert conditions[i..][1..] == conditions[i + 1..];
      if conditions[i].column == pos {
        if conditions[i].op == Equals {
          return Some(conditions[i]);
        }
        break;
      }
    }
    return None;
  }

  lemma {:induction false} CoveringIsPredicate(pos: nat, conditions: Where)
    ensures Covering(pos, conditions).Some? ==>
      var p := Covering(pos, conditions).value; p in conditions && p.column == pos && p.op == Equals
    decreases |conditions|
  {
    if conditions != [] { CoveringIsPredicate(pos, conditions[1..]); }
  }

  /** Only the first predicate on a column can cover it, and only if it is an equality. */
  lemma {:induction false} CoveringIsFirst(pos: nat, conditions: Where, i: nat)
    requires i < |conditions| && conditions[i].column == pos && forall j :: 0 <= j < i ==> conditions[j].column != pos
    ensures Covering(pos, conditions) == if conditions[i].op == Equals then Some(conditions[i]) else None
    decreases i
  {
    if i > 0 { CoveringIsFirst(pos, conditions[1..], i - 1); }
  }

  lemma {:induction false} NothingCovers(pos: nat, conditions: Where)
    requires forall j :: 0 <= j < |conditions| ==> conditions[j].column != pos
    ensures Covering(pos, conditions) == None
    decreases |conditions|
  {
    if conditions != [] { NothingCovers(pos, conditions[1..]); }
  }

  /** Every part of the index has an equality predicate. */
  ghost predicate FullyCovered(parts: seq<KeyPart>, conditions: Where) {
    forall i :: 0 <= i < |parts| ==> Covering(parts[i].pos, conditions).Some?
  }

  /** score_index: how many parts are covered before the first that is not. */
  method ScoreIndex(parts: seq<KeyPart>, conditions: Where) returns (score: nat)
    ensures score <= |parts|
    ensures score == |parts| <==> FullyCovered(parts, conditions)
    ensures forall j :: 0 <= j < score ==> Covering(parts[j].pos, conditions).Some?
    ensures score < |parts| ==> Covering(parts[score].pos, conditions).None?
  {
    score := 0;
    for i := 0 to |parts|
      invariant score == i
      invariant forall j :: 0 <= j < i ==> Covering(parts[j].pos, conditions).Some?
    {
      var p := ColumnCovered(parts[i].pos, conditions);
      if p == None {
        break;
      }
      score := score + 1;
    }
  }

  /** An index that can answer the where clause at all. */
  ghost predicate UsableIndex(def: IndexDefinition, conditions: Where) {
    |def.parts| > 0 && FullyCovered(def.parts, conditions)
  }

  /** choose_best_index: of the usable ones, the first with the most parts. */
  method ChooseBestIndex(conditions: Where, defs: seq<IndexDefinition>) returns (best: Option<nat>)
    ensures best.None? <==> forall j :: 0 <= j < |defs| ==> !UsableIndex(defs[j], conditions)
    ensures best.Some? ==>
      && best.value < |defs| && UsableIndex(defs[best.value], conditions)
      && (forall j :: 0 <= j < |defs| && UsableIndex(defs[j], conditions) ==> |defs[j].parts| <= |defs[best.value].parts|)
      && (forall j :: 0 <= j < best.value && UsableIndex(defs[j], conditions) ==> |defs[j].parts| < |defs[best.value].parts|)
  {
    hide FullyCovered;
    var maxScore := 0;
    best := None;
    for i := 0 to |defs|
      invariant best.None? ==> maxScore == 0 && forall j :: 0 <= j < i ==> !UsableIndex(defs[j], conditions)
      invariant best.Some? ==>
        && best.value < i && UsableIndex(defs[best.value], conditions) && maxScore == |defs[best.value].parts|
        && (forall j :: 0 <= j < i && UsableIndex(defs[j], conditions) ==> |defs[j].parts| <= maxScore)
        && (forall j :: 0 <= j < best.value && UsableIndex(defs[j], conditions) ==> |defs[j].parts| < maxScore)
    {
      var score := ScoreIndex(defs[i].parts, conditions);
      if score == |defs[i].parts| && score > maxScore {
        maxScore := score;
        best := Some(i);
      }
    }
  }

  datatype IndexDecision = FullScan | UseIndex(index: nat, values: Row)

  /** The values an index would be asked for. */
  ghost predicate ValuesFor(parts: seq<KeyPart>, conditions: Where, values: Row) {
    |values| == |parts| && forall i :: 0 <= i < |parts| ==> Covering(parts[i].pos, conditions) == Some(Predicate(parts[i].pos, Equals, values[i]))
  }

  /** A decision a planner may take: no index, or one whose key the where clause fixes completely. */
  ghost predicate Sound(decision: IndexDecision, conditions: Where, defs: seq<IndexDefinition>) {
    decision.UseIndex? ==> decision.index < |defs| && ValuesFor(defs[decision.index].parts, conditions, decision.values)
  }

  /** select_best_index: choose_best_index and fill_best_index. */
  method SelectBestIndex(conditions: Where, defs: seq<IndexDefinition>) returns (decision: IndexDecision)
    ensures Sound(decision, conditions, defs)
    ensures decision.FullScan? <==> forall j :: 0 <= j < |defs| ==> !UsableIndex(defs[j], conditions)
    ensures decision.UseIndex? ==>
      && UsableIndex(defs[decision.index], conditions)
      && (forall j :: 0 <= j < |defs| && UsableIndex(defs[j], conditions) ==> |defs[j].parts| <= |defs[decision.index].parts|)
      && (forall j :: 0 <= j < decision.index && UsableIndex(defs[j], conditions) ==> |defs[j].parts| < |defs[decision.index].parts|)
  {
    var best := ChooseBestIndex(conditions, defs);
    if best.None? {
      return FullScan;
    }
    var parts := defs[best.value].parts;
    var values: Row := [];
    for i := 0 to |parts|
      invariant |values| == i
      invariant forall j :: 0 <= j < i ==> Covering(parts[j].pos, conditions) == Some(Predicate(parts[j].pos, Equals, values[j]))
    {
      CoveringIsPredicate(parts[i].pos, conditions);
      var p := ColumnCovered(parts[i].pos, conditions);
      if p == None {
        break;
      }
      values := values + [p.value.value];
    }
    return UseIndex(best.value, values);
  }

  // ---------------------------------------------------------------- the index gives the same rows

  /** A matching row has the key the index is asked for. */
  lemma {:induction false} MatchingRowKey(parts: seq<KeyPart>, conditions: Where, values: Row, row: Row)
    requires ValuesFor(parts, conditions, values) && Matches(row, conditions) && PartsFit(parts, row)
    ensures KeyIn(parts, row) == KeyOf(parts, values)
  {
    hide KeyOf, Covering;
    var u := KeyValues(parts, row);
    forall i | 0 <= i < |parts|
      ensures u[i] == values[i]
    {
      CoveringIsPredicate(parts[i].pos, conditions);
      CompareZeroIffEqual(row[parts[i].pos], values[i]);
    }
    assert u == values;
  }

  /** The rows an index lookup leads to. */
  ghost function Found(m: Index, log: Log, key: Key, i: nat): seq<StoredRow> {
    if key in m && i < |log| && log[i].at == m[key] && !log[i].dead then [StoredRow(log[i].row, log[i].at)] else []
  }

  /** Of the live rows from `i` on, only the one under the key can match. */
  lemma {:induction false} OnlyTheFoundMatches(m: Index, parts: seq<KeyPart>, conditions: Where, values: Row,
                                               log: Log, schema: Schema, c: nat, i: nat)
    requires ValidLog(log, schema) && Agrees(m, parts, log) && ValuesFor(parts, conditions, values)
    requires forall j :: LiveAt(log, j) ==> PartsFit(parts, log[j].row)
    requires i <= |log| && (KeyOf(parts, values) in m ==> c < |log| && log[c].at == m[KeyOf(parts, values)])
    ensures Filter(LiveFrom(log, i), conditions)
         == if i <= c then Filter(Found(m, log, KeyOf(parts, values), c), conditions) else []
    decreases |log| - i
  {
    hide Matches, KeyOf, KeyIn, ValuesFor, ValidLog;
    if i < |log| {
      OnlyTheFoundMatches(m, parts, conditions, values, log, schema, c, i + 1);
      if !log[i].dead {
        assert LiveAt(log, i);
        FilterCons(StoredRow(log[i].row, log[i].at), LiveFrom(log, i + 1), conditions);
        if Matches(log[i].row, conditions) {
          MatchingRowKey(parts, conditions, values, log[i].row);
          OffsetsDiffer(log, schema, i, c);
        }
        FilterOne(StoredRow(log[i].row, log[i].at), conditions);
      }
    }
  }

  lemma FilterCons(x: StoredRow, rows: seq<StoredRow>, conditions: Where)
    ensures Filter([x] + rows, conditions) == (if Matches(x.row, conditions) then [x] else []) + Filter(rows, conditions)
  {
    assert ([x] + rows)[1..] == rows;
  }

  lemma FilterOne(x: StoredRow, conditions: Where)
    ensures Filter([x], conditions) == if Matches(x.row, conditions) then [x] else []
  {
    assert [x][1..] == [];
  }

  lemma PartsFitRows(log: Log, schema: Schema, parts: seq<KeyPart>)
    requires ValidLog(log, schema) && ValidParts(parts, schema)
    ensures forall j :: LiveAt(log, j) ==> PartsFit(parts, log[j].row)
  {
    forall j | LiveAt(log, j)
      ensures PartsFit(parts, log[j].row)
    {
      FramesInPlace(log, schema, j);
    }
  }

  /**
   * Plan equivalence: the rows the index leads to, filtered, are the rows of a full scan, filtered, whatever
   * the where clause and the data.
   */
  lemma {:induction false} PlanEquivalence(m: Index, parts: seq<KeyPart>, conditions: Where, values: Row, log: Log, schema: Schema, c: nat)
    requires ValidLog(log, schema) && Agrees(m, parts, log) && ValidParts(parts, schema) && ValuesFor(parts, conditions, values)
    requires KeyOf(parts, values) in m ==> c < |log| && log[c].at == m[KeyOf(parts, values)]
    ensures Filter(Found(m, log, KeyOf(parts, values), c), conditions) == Filter(LiveRows(log), conditions)
  {
    hide Matches, KeyOf, KeyIn, ValuesFor, ValidLog, ValidParts, Agrees, Filter, LiveFrom;
    PartsFitRows(log, schema, parts);
    OnlyTheFoundMatches(m, parts, conditions, values, log, schema, c, 0);
  }
}
