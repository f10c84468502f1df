/** The executors of insert, delete, update and select over a data file and its indexes. */
module Executor {
  import opened Ordering
  import opened Values
  import opened KeyOrder
  import opened KeyRefinement
  import opened RowCodec
  import opened DataFile
  import opened RowSources
  import opened Agreement
  import opened Planner
  import opened Dml
  import opened UpdateChecks

  /** What a statement reports: how many rows it affected, or the index whose keys would no longer be unique. */
  datatype Outcome = Affected(rows: nat) | Duplicate(indexName: string)

  // ---------------------------------------------------------------- the indexes of a table, loaded

  /** The working copy of a table's indexes; index files change only when it is saved. */
  class IndexSet {
    const defs: seq<IndexDefinition>
    var indexes: seq<Index>

    ghost predicate Valid()
      reads this
    {
      |indexes| == |defs|
    }

    constructor Load(defs: seq<IndexDefinition>, saved: seq<Index>)
      requires |saved| == |defs|
      ensures Valid() && this.defs == defs && indexes == saved
    {
      this.defs, indexes := defs, saved;
    }

    /** index_set_has_duplicate: the first index that already holds the key of these values. */
    method HasDuplicate(values: Row) returns (clash: Option<nat>)
      requires Valid()
      ensures clash.None? ==> forall j :: 0 <= j < |defs| ==> KeyIn(defs[j].parts, values) !in indexes[j]
      ensures clash.Some? ==>
        && clash.value < |defs| && KeyIn(defs[clash.value].parts, values) in indexes[clash.value]
        && forall j :: 0 <= j < clash.value ==> KeyIn(defs[j].parts, values) !in indexes[j]
    {
      for i := 0 to |defs|
        invariant forall j :: 0 <= j < i ==> KeyIn(defs[j].parts, values) !in indexes[j]
      {
        if KeyIn(defs[i].parts, values) in indexes[i] {
          return Some(i);
        }
      }
      return None;
    }

    /** index_set_has_conflict: the first index that holds the key for another row. */
    method HasConflict(values: Row, offset: FileOffset) returns (clash: Option<nat>)
      requires Valid()
      ensures clash.None? ==> forall j :: 0 <= j < |defs| ==>
        KeyIn(defs[j].parts, values) in indexes[j] ==> indexes[j][KeyIn(defs[j].parts, values)] == offset
      ensures clash.Some? ==>
        && clash.value < |defs| && KeyIn(defs[clash.value].parts, values) in indexes[clash.value]
        && indexes[clash.value][KeyIn(defs[clash.value].parts, values)] != offset
        && forall j :: 0 <= j < clash.value ==>
             KeyIn(defs[j].parts, values) in indexes[j] ==> indexes[j][KeyIn(defs[j].parts, values)] == offset
    {
      for i := 0 to |defs|
        invariant forall j :: 0 <= j < i ==>
          KeyIn(defs[j].parts, values) in indexes[j] ==> indexes[j][KeyIn(defs[j].parts, values)] == offset
      {
        var key := KeyIn(defs[i].parts, values);
        if key in indexes[i] && indexes[i][key] != offset {
          return Some(i);
        }
      }
      return None;
    }

    /** index_set_insert: every index takes the row; nothing is promised of one that holds the key already. */
    method InsertAll(values: Row, offset: FileOffset)
      requires Valid()
      modifies this
      ensures Valid()
      ensures forall j :: 0 <= j < |defs| && KeyIn(defs[j].parts, values) !in old(indexes[j]) ==>
        indexes[j] == old(indexes[j])[KeyIn(defs[j].parts, values) := offset]
    {
      for i := 0 to |defs|
        invariant |indexes| == |defs|
        invariant forall j :: 0 <= j < i ==> indexes[j] == old(indexes[j])[KeyIn(defs[j].parts, values) := offset]
        invariant forall j :: i <= j < |defs| ==> indexes[j] == old(indexes[j])
      {
        indexes := indexes[i := indexes[i][KeyIn(defs[i].parts, values) := offset]];
      }
    }

    /** index_set_delete: index by index, given up at the first that does not hold the key. */
    method DeleteAll(values: Row) returns (deleted: bool, ghost n: nat)
      requires Valid()
      modifies this
      ensures Valid() && n <= |defs| && (deleted <==> n == |defs|)
      ensures forall j :: 0 <= j < n ==> KeyIn(defs[j].parts, values) in old(indexes[j])
      ensures n < |defs| ==> KeyIn(defs[n].parts, values) !in old(indexes[n])
      ensures forall j :: 0 <= j < |defs| ==> indexes[j] == if j < n then old(indexes[j]) - {KeyIn(defs[j].parts, values)} else old(indexes[j])
    {
      for i := 0 to |defs|
        invariant |indexes| == |defs|
        invariant forall j :: 0 <= j < i ==> KeyIn(defs[j].parts, values) in old(indexes[j])
        invariant forall j :: 0 <= j < |defs| ==> indexes[j] == if j < i then old(indexes[j]) - {KeyIn(defs[j].parts, values)} else old(indexes[j])
      {
        var key := KeyIn(defs[i].parts, values);
        if key !in indexes[i] {
          return false, i;
        }
        indexes := indexes[i := indexes[i] - {key}];
      }
      return true, |defs|;
    }
  }

  // ---------------------------------------------------------------- what the executors promise, on the log alone

  /** Some live row already has the key of these values. */
  ghost predicate Taken(parts: seq<KeyPart>, log: Log, values: Row) {
    exists i :: LiveAt(log, i) && KeyIn(parts, log[i].row) == KeyIn(parts, values)
  }

  ghost predicate KeyTaken(defs: seq<IndexDefinition>, log: Log, values: Row) {
    exists j :: 0 <= j < |defs| && Taken(defs[j].parts, log, values)
  }

  /** The first index whose key of these values is taken. */
  ghost predicate FirstTaken(defs: seq<IndexDefinition>, log: Log, values: Row, j: int) {
    0 <= j < |defs| && Taken(defs[j].parts, log, values) && forall i :: 0 <= i < j ==> !Taken(defs[i].parts, log, values)
  }

  /** The records an update changes. */
  ghost function Changed(log: Log, conditions: Where, assignments: seq<Assignment>): seq<nat> {
    Hits(log, Changing(conditions, assignments), 0)
  }

  /** An update is turned down: for some index, one of its two checks fails. */
  ghost predicate UpdateRefused(defs: seq<IndexDefinition>, log: Log, hits: seq<nat>, assignments: seq<Assignment>) {
    exists j :: 0 <= j < |defs|
      && (Conflict(defs[j].parts, log, hits, assignments) || BatchDuplicate(defs[j].parts, log, hits, assignments))
  }

  lemma KeyInIff(m: Index, parts: seq<KeyPart>, log: Log, values: Row)
    requires Agrees(m, parts, log)
    ensures KeyIn(parts, values) in m <==> Taken(parts, log, values)
  {
    hide KeyIn;
  }

  /** An index holds a key for another row exactly when another live row has it. */
  lemma KeyHeldByOther(m: Index, parts: seq<KeyPart>, log: Log, schema: Schema, values: Row, r: nat)
    requires Agrees(m, parts, log) && ValidLog(log, schema) && LiveAt(log, r)
    ensures KeyIn(parts, values) in m && m[KeyIn(parts, values)] != log[r].at
       <==> exists i :: LiveAt(log, i) && i != r && KeyIn(parts, log[i].row) == KeyIn(parts, values)
  {
    hide KeyIn;
    forall i | LiveAt(log, i) && log[i].at == log[r].at
      ensures i == r
    {
      OffsetsDiffer(log, schema, i, r);
    }
  }

  lemma InIndexIffTaken(indexes: seq<Index>, defs: seq<IndexDefinition>, log: Log, values: Row)
    requires AllAgree(indexes, defs, log)
    ensures forall j :: 0 <= j < |defs| ==> (KeyIn(defs[j].parts, values) in indexes[j] <==> Taken(defs[j].parts, log, values))
  {
    hide KeyIn, Agrees, Taken;
    forall j | 0 <= j < |defs|
      ensures KeyIn(defs[j].parts, values) in indexes[j] <==> Taken(defs[j].parts, log, values)
    {
      KeyInIff(indexes[j], defs[j].parts, log, values);
    }
  }

  ghost predicate AllSteady(defs: seq<IndexDefinition>, values: Row, schema: Schema)
    requires |values| == |schema|
  {
    forall j :: 0 <= j < |defs| ==> Steady(defs[j].parts, values, schema)
  }

  /** The row is refused, or every index can take it under the key it has once stored. */
  ghost predicate InsertSafe(defs: seq<IndexDefinition>, schema: Schema, log: Log, values: Row)
    requires |values| == |schema|
  {
    KeyTaken(defs, log, values) || AllSteady(defs, values, schema)
  }

  /** Inserting a row keeps every index in agreement. */
  lemma InsertAgrees(indexes: seq<Index>, after: seq<Index>, defs: seq<IndexDefinition>, log: Log, schema: Schema, values: Row, at: nat)
    requires AllAgree(indexes, defs, log) && WellTypedRow(values, schema) && ValidDefinitions(defs, schema)
    requires ValidLog(log, schema) && at == End(log, schema) && AllSteady(defs, values, schema)
    requires |after| == |defs|
    requires forall j :: 0 <= j < |defs| ==> KeyIn(defs[j].parts, values) !in indexes[j]
    requires forall j :: 0 <= j < |defs| ==> after[j] == indexes[j][KeyIn(defs[j].parts, values) := at]
    ensures AllAgree(after, defs, log + [Record(at, false, NormalRow(values, schema))])
  {
    hide KeyIn, Agrees, NormalRow, Steady, ValidParts, ValidLog;
    forall j | 0 <= j < |defs|
      ensures Agrees(after[j], defs[j].parts, log + [Record(at, false, NormalRow(values, schema))])
    {
      InsertAgreesIffSteady(indexes[j], defs[j].parts, log, schema, values);
    }
  }

  /** No index lacks the key of a live row. */
  lemma KeysPresent(indexes: seq<Index>, defs: seq<IndexDefinition>, log: Log, i: nat)
    requires AllAgree(indexes, defs, log) && LiveAt(log, i)
    ensures forall j :: 0 <= j < |defs| ==> KeyIn(defs[j].parts, log[i].row) in indexes[j]
  {
    hide KeyIn;
    forall j | 0 <= j < |defs|
      ensures KeyIn(defs[j].parts, log[i].row) in indexes[j]
    {
      assert Agrees(indexes[j], defs[j].parts, log);
    }
  }

  /** Deleting a live row keeps every index in agreement. */
  lemma DeleteAgrees(indexes: seq<Index>, after: seq<Index>, defs: seq<IndexDefinition>, log: Log, schema: Schema, i: nat)
    requires AllAgree(indexes, defs, log) && ValidLog(log, schema) && LiveAt(log, i) && |after| == |defs|
    requires forall j :: 0 <= j < |defs| ==> after[j] == indexes[j] - {KeyIn(defs[j].parts, log[i].row)}
    ensures AllAgree(after, defs, Kill(log, i))
  {
    hide KeyIn, ValidLog;
    forall j | 0 <= j < |defs|
      ensures Agrees(after[j], defs[j].parts, Kill(log, i))
    {
      AgreesKill(indexes[j], defs[j].parts, log, schema, i);
    }
  }

  // ---------------------------------------------------------------- the executors

  class Engine {
    const schema: Schema
    const defs: seq<IndexDefinition>
    const file: TableFile
    /** The saved index files. */
    var indexes: seq<Index>

    ghost predicate WellFormed()
      reads this, file
    {
      file.Valid() && file.schema == schema && ValidDefinitions(defs, schema) && |indexes| == |defs|
    }

    /** The data file is well formed and every index agrees with it. */
    ghost predicate Valid()
      reads this, file
    {
      WellFormed() && AllAgree(indexes, defs, file.log)
    }

    constructor (schema: Schema, defs: seq<IndexDefinition>)
      requires ValidSchema(schema) && ValidDefinitions(defs, schema)
      ensures Valid() && fresh(file) && file.log == [] && this.schema == schema && this.defs == defs
    {
      this.schema, this.defs := schema, defs;
      file := new TableFile(schema);
      indexes := seq(|defs|, _ => map[]);
      new;
      forall j | 0 <= j < |defs| ensures Agrees(indexes[j], defs[j].parts, file.log) { EmptyAgrees(defs[j].parts); }
    }

    method ExecuteInsert(values: Row) returns (outcome: Outcome)
      requires Valid() && WellTypedRow(values, schema)
      modifies this, file
      ensures WellFormed() && (old(InsertSafe(defs, schema, file.log, values)) ==> Valid())
      ensures outcome.Duplicate? <==> KeyTaken(defs, old(file.log), values)
      ensures outcome.Duplicate? ==> file.log == old(file.log) && indexes == old(indexes)
      ensures outcome.Duplicate? ==>
        exists j :: FirstTaken(defs, old(file.log), values, j) && outcome.indexName == defs[j].name
      ensures !outcome.Duplicate? ==>
        outcome == Affected(1) && file.log == old(file.log) + [Record(End(old(file.log), schema), false, NormalRow(values, schema))]
    {
      hide KeyIn, ValidLog, Bytes, NormalRow, WellTyped, ValidParts, Agrees, Taken, AllSteady;
      InIndexIffTaken(indexes, defs, file.log, values);
      var indexSet := new IndexSet.Load(defs, indexes);
      var clash := indexSet.HasDuplicate(values);
      if clash.Some? {
        assert FirstTaken(defs, file.log, values, clash.value);
        return Duplicate(defs[clash.value].name);
      }
      var offset := file.InsertRow(values);
      indexSet.InsertAll(values, offset);
      if AllSteady(defs, values, schema) {
        InsertAgrees(indexes, indexSet.indexes, defs, old(file.log), schema, values, offset);
      }
      indexes := indexSet.indexes;
      return Affected(1);
    }

    /** create_row_source: a full scan, or a lookup of the key the decision gives. */
    method CreateRowSource(decision: IndexDecision, ghost conditions: Where) returns (source: RowSource)
      requires Valid() && Sound(decision, conditions, defs)
      modifies file`pos
      ensures fresh(source) && source.Valid() && source.file == file && Valid()
      ensures Filter(source.Remaining(), conditions) == Filter(LiveRows(file.log), conditions)
    {
      hide KeyIn, ValidLog, Bytes, Agrees, Matches, Filter, ValidParts;
      if decision.FullScan? {
        source := new RowSource.TableScan(file);
        return;
      }
      var parts, m := defs[decision.index].parts, indexes[decision.index];
      var keyBytes := PrepareIndexKey(parts, decision.values);
      var key := keyBytes[..];
      ghost var c := WhereFound(m, parts, file.log, key);
      source := new RowSource.IndexScan(file, key in m, if key in m then m[key] else 0, c);
      PlanEquivalence(m, parts, conditions, decision.values, file.log, schema, c);
    }

    method ExecuteSelect(conditions: Where, decision: IndexDecision) returns (rows: seq<StoredRow>)
      requires Valid() && Sound(decision, conditions, defs) && ColumnsExist(conditions, schema)
      modifies file`pos
      ensures Valid()
      ensures rows == Filter(LiveRows(file.log), conditions)
    {
      hide ValidLog, Bytes, AllAgree, Matches, Filter, ValidDefinitions, LiveFrom, RowSource.Remaining, RowSource.Valid;
      var source := CreateRowSource(decision, conditions);
      rows := [];
      ghost var goal := Filter(LiveRows(file.log), conditions);
      RowsTyped(source);
      while true
        invariant Valid() && source.Valid() && source.file == file && fresh(source)
        invariant AllTyped(source.Remaining(), schema) && rows + Filter(source.Remaining(), conditions) == goal
        decreases |source.Remaining()|
      {
        Collect(rows, source.Remaining(), conditions);
        var found, row := source.GetNext();
        if !found {
          return;
        }
        TypedCons(row, source.Remaining(), schema);
        FilterStep(rows, row, source.Remaining(), conditions);
        var matched := MatchesWhere(row.row, conditions);
        if matched {
          rows := rows + [row];
        }
      }
    }

    /** The first loop of execute_delete: matching rows are noted and taken out of the working indexes. */
    method GatherDeleted(source: RowSource, indexSet: IndexSet, conditions: Where, ghost hits: seq<nat>) returns (offsets: seq<FileOffset>)
      requires Valid() && source.Valid() && source.file == file && indexSet.Valid() && indexSet.defs == defs
      requires ColumnsExist(conditions, schema) && AllAgree(indexSet.indexes, defs, file.log)
      requires AllTyped(source.Remaining(), schema)
      requires Filter(source.Remaining(), conditions) == RowsAt(file.log, hits) && Increasing(file.log, hits)
      modifies source, file`pos, indexSet
      ensures Valid() && indexSet.Valid() && AllAgree(indexSet.indexes, defs, KillAll(file.log, hits))
      ensures |offsets| == |hits| && forall k :: 0 <= k < |hits| ==> hits[k] < |file.log| && offsets[k] == file.log[hits[k]].at
    {
      hide ValidLog, Bytes, AllAgree, Matches, Filter, ValidDefinitions, LiveFrom, RowSource.Remaining, RowSource.Valid, KillAll, RowsAt, Increasing;
      offsets := [];
      ghost var got: seq<StoredRow> := [];
      NothingYet(file.log, hits);
      while true
        invariant Valid() && source.Valid() && indexSet.Valid() && AllTyped(source.Remaining(), schema)
        invariant got + Filter(source.Remaining(), conditions) == RowsAt(file.log, hits)
        invariant |offsets| == |got| <= |hits| && forall k :: 0 <= k < |got| ==> offsets[k] == got[k].offset
        invariant AllAgree(indexSet.indexes, defs, KillAll(file.log, hits[..|got|]))
        decreases |source.Remaining()|
      {
        Collect(got, source.Remaining(), conditions);
        var found, row := source.GetNext();
        if !found {
          AllGathered(file.log, hits, got);
          return;
        }
        TypedCons(row, source.Remaining(), schema);
        FilterStep(got, row, source.Remaining(), conditions);
        var matched := MatchesWhere(row.row, conditions);
        if matched {
          NextHit(file.log, schema, hits, got, row, Filter(source.Remaining(), conditions));
          ghost var log := KillAll(file.log, hits[..|got|]);
          KeysPresent(indexSet.indexes, defs, log, hits[|got|]);
          ghost var before := indexSet.indexes;
          offsets := offsets + [row.offset];
          var deleted, n := indexSet.DeleteAll(row.row);
          DeleteAgrees(before, indexSet.indexes, defs, log, schema, hits[|got|]);
          got := got + [row];
        }
      }
    }

    method ExecuteDelete(conditions: Where, decision: IndexDecision) returns (outcome: Outcome)
      requires Valid() && Sound(decision, conditions, defs) && ColumnsExist(conditions, schema)
      modifies this, file
      ensures Valid()
      ensures file.log == DeleteMatching(old(file.log), conditions)
      ensures outcome == Affected(|Filter(LiveRows(old(file.log)), conditions)|)
    {
      hide ValidLog, Bytes, Agrees, Matches, Filter, ValidDefinitions, LiveFrom, RowSource.Remaining, RowSource.Valid, KillAll, RowsAt, Hits, Increasing;
      ghost var log, hits := file.log, Hits(file.log, Matching(conditions), 0);
      MatchingHits(log, conditions);
      var indexSet := new IndexSet.Load(defs, indexes);
      var source := CreateRowSource(decision, conditions);
      RowsTyped(source);
      var offsets := GatherDeleted(source, indexSet, conditions, hits);
      KillAllValid(log, schema, hits);
      ghost var after := indexSet.indexes;
      for k := 0 to |offsets|
        invariant file.Valid() && file.log == KillAll(log, hits[..k]) && indexSet.indexes == after
      {
        KillOneMore(log, hits, k);
        file.DeleteRow(offsets[k], hits[k]);
      }
      assert hits[..|offsets|] == hits;
      indexes := indexSet.indexes;
      return Affected(|offsets|);
    }
  }

  /** Positions of live records, in file order. */
  ghost predicate Increasing(log: Log, hits: seq<nat>) {
    && (forall k :: 0 <= k < |hits| ==> LiveAt(log, hits[k]))
    && (forall k, l :: 0 <= k < l < |hits| ==> hits[k] < hits[l])
  }

  lemma MatchingHits(log: Log, conditions: Where)
    ensures var hits := Hits(log, Matching(conditions), 0);
      && Increasing(log, hits) && Filter(LiveRows(log), conditions) == RowsAt(log, hits) && |RowsAt(log, hits)| == |hits|
      && KillAll(log, []) == log && hits[..0] == []
  {
    HitsFacts(log, Matching(conditions), 0);
    FilterIsHits(log, conditions, 0);
    KillNone(log);
  }

  lemma NothingYet(log: Log, hits: seq<nat>)
    ensures KillAll(log, hits[..0]) == log
  {
    KillNone(log);
  }

  lemma AllGathered(log: Log, hits: seq<nat>, got: seq<StoredRow>)
    requires got == RowsAt(log, hits) && Increasing(log, hits)
    ensures |got| == |hits| && hits[..|got|] == hits
    ensures forall k :: 0 <= k < |hits| ==> hits[k] < |log| && got[k].offset == log[hits[k]].at
  {
  }

  /** The next matching row is the next record to go; it is still live. */
  lemma NextHit(log: Log, schema: Schema, hits: seq<nat>, got: seq<StoredRow>, row: StoredRow, rest: seq<StoredRow>)
    requires ValidLog(log, schema) && Increasing(log, hits) && (got + [row]) + rest == RowsAt(log, hits)
    ensures |got| < |hits| && hits[|got|] < |log| && row.offset == log[hits[|got|]].at
    ensures var less := KillAll(log, hits[..|got|]);
      && ValidLog(less, schema) && LiveAt(less, hits[|got|]) && less[hits[|got|]].row == row.row
      && Kill(less, hits[|got|]) == KillAll(log, hits[..|got + [row]|])
  {
    hide ValidLog, Bytes;
    assert RowsAt(log, hits)[|got|] == ((got + [row]) + rest)[|got|] == row;
    assert LiveAt(log, hits[|got|]);
    KillOneMore(log, hits, |got|);
    KillAllKeeps(log, schema, hits[..|got|]);
  }

  lemma KillAllValid(log: Log, schema: Schema, hits: seq<nat>)
    requires ValidLog(log, schema) && Increasing(log, hits)
    ensures forall k :: 0 <= k <= |hits| ==> |KillAll(log, hits[..k])| == |log|
    ensures forall k, i :: 0 <= k <= |hits| && 0 <= i < |log| ==> KillAll(log, hits[..k])[i].at == log[i].at
    ensures hits[..0] == [] && KillAll(log, []) == log
  {
    KillNone(log);
  }

  lemma Collect(rows: seq<StoredRow>, rest: seq<StoredRow>, conditions: Where)
    ensures rest == [] ==> rows + Filter(rest, conditions) == rows
  {
  }

  lemma FilterStep(rows: seq<StoredRow>, row: StoredRow, rest: seq<StoredRow>, conditions: Where)
    ensures rows + Filter([row] + rest, conditions) == (if Matches(row.row, conditions) then rows + [row] else rows) + Filter(rest, conditions)
  {
    FilterCons(row, rest, conditions);
  }

  ghost predicate AllTyped(rows: seq<StoredRow>, schema: Schema) {
    forall k :: 0 <= k < |rows| ==> |rows[k].row| == |schema|
  }

  lemma TypedCons(row: StoredRow, rows: seq<StoredRow>, schema: Schema)
    requires AllTyped([row] + rows, schema)
    ensures |row.row| == |schema| && AllTyped(rows, schema)
  {
    assert ([row] + rows)[0] == row && ([row] + rows)[1..] == rows;
  }

  lemma {:induction false} LiveTyped(log: Log, schema: Schema, i: nat)
    requires ValidLog(log, schema) && i <= |log|
    ensures AllTyped(LiveFrom(log, i), schema)
    decreases |log| - i
  {
    hide ValidLog;
    if i < |log| {
      LiveTyped(log, schema, i + 1);
      FramesInPlace(log, schema, i);
    }
  }

  lemma RowsTyped(source: RowSource)
    requires source.Valid()
    ensures AllTyped(source.Remaining(), source.file.schema)
  {
    hide ValidLog, Bytes;
    var log := source.file.log;
    if !source.useIndex {
      LiveTyped(log, source.file.schema, source.current);
    } else if source.hasResult {
      FramesInPlace(log, source.file.schema, source.current);
    }
  }

  /** The record an index entry stands for. */
  lemma WhereFound(m: Index, parts: seq<KeyPart>, log: Log, key: Key) returns (i: nat)
    requires Agrees(m, parts, log)
    ensures key in m ==> i < |log| && log[i].at == m[key]
  {
    i := 0;
    if key in m {
      i :| LiveAt(log, i) && KeyIn(parts, log[i].row) == key;
    }
  }
}
