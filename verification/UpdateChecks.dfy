/** The two checks an update makes before it touches anything, and why they are enough. */
module UpdateChecks {
  import opened Ordering
  import opened Values
  import opened KeyOrder
  import opened KeyRefinement
  import opened RowCodec
  import opened DataFile
  import opened RowSources
  import opened Agreement
  import opened Planner
  import opened Dml

  /** An update of known records of a known log. */
  ghost predicate ValidUpdate(log: Log, schema: Schema, hits: seq<nat>, assignments: seq<Assignment>) {
    && ValidSchema(schema) && ValidLog(log, schema) && ValidAssignments(assignments, schema)
    && (forall k :: 0 <= k < |hits| ==> LiveAt(log, hits[k]))
    && (forall k, l :: 0 <= k < l < |hits| ==> hits[k] < hits[l])
  }

  /** The row the update makes of its `k`-th record. */
  ghost function NewRow(log: Log, hits: seq<nat>, assignments: seq<Assignment>, k: int): Row {
    if 0 <= k < |hits| && hits[k] < |log| then Assigned(log[hits[k]].row, assignments) else []
  }

  lemma NewRowAt(log: Log, schema: Schema, hits: seq<nat>, assignments: seq<Assignment>, k: nat, c: nat)
    requires ValidUpdate(log, schema, hits, assignments) && k < |hits| && c < |schema|
    ensures var new_, old_ := NewRow(log, hits, assignments, k), log[hits[k]].row;
      && |new_| == |schema| == |old_| && WellTypedRow(old_, schema) && NormalRow(old_, schema) == old_
      && new_[c] == if exists i :: 0 <= i < |assignments| && assignments[i].column == c then LastFor(assignments, c) else old_[c]
  {
    assert LiveAt(log, hits[k]);
    FramesInPlace(log, schema, hits[k]);
    AssignedAt(log[hits[k]].row, assignments, c);
  }

  lemma {:induction false} NewRowIsTyped(log: Log, schema: Schema, hits: seq<nat>, assignments: seq<Assignment>, k: nat)
    requires ValidUpdate(log, schema, hits, assignments) && k < |hits|
    ensures WellTypedRow(NewRow(log, hits, assignments, k), schema)
  {
    assert LiveAt(log, hits[k]);
    FramesInPlace(log, schema, hits[k]);
    hide ValidLog, Bytes, NormalRow, LastFor, WellTyped;
    var row := NewRow(log, hits, assignments, k);
    forall c | 0 <= c < |schema|
      ensures WellTyped(row[c], schema[c])
    {
      NewValueIsTyped(log, schema, hits, assignments, k, c);
    }
  }

  lemma NewValueIsTyped(log: Log, schema: Schema, hits: seq<nat>, assignments: seq<Assignment>, k: nat, c: nat)
    requires ValidUpdate(log, schema, hits, assignments) && k < |hits| && c < |schema|
    ensures |NewRow(log, hits, assignments, k)| == |schema|
    ensures WellTyped(NewRow(log, hits, assignments, k)[c], schema[c])
  {
    NewRowAt(log, schema, hits, assignments, k, c);
    if i :| 0 <= i < |assignments| && assignments[i].column == c {
      LastForIsAssigned(assignments, c, i);
    }
  }

  // ---------------------------------------------------------------- the checks

  /** index_key_conflicts: the new key of record `k` belongs to another live row. */
  ghost predicate ConflictOf(parts: seq<KeyPart>, log: Log, hits: seq<nat>, assignments: seq<Assignment>, k: int) {
    0 <= k < |hits| && exists i :: LiveAt(log, i) && i != hits[k] && KeyIn(parts, log[i].row) == KeyIn(parts, NewRow(log, hits, assignments, k))
  }

  /** The first check, over the whole batch. */
  ghost predicate Conflict(parts: seq<KeyPart>, log: Log, hits: seq<nat>, assignments: seq<Assignment>) {
    exists k :: ConflictOf(parts, log, hits, assignments, k)
  }

  /** All columns of an index compare as equal. */
  predicate SameColumns(parts: seq<KeyPart>, u: Row, v: Row) {
    forall p :: 0 <= p < |parts| ==>
      parts[p].pos < |u| && parts[p].pos < |v| && CompareValue(u[parts[p].pos], v[parts[p].pos]) == 0
  }

  /** index_batch_has_duplicates: two new rows agree on all columns of an index. */
  ghost predicate BatchDuplicate(parts: seq<KeyPart>, log: Log, hits: seq<nat>, assignments: seq<Assignment>) {
    exists k, l :: 0 <= k < l < |hits|
      && SameColumns(parts, NewRow(log, hits, assignments, k), NewRow(log, hits, assignments, l))
  }

  /** What the second check stands in for: two new rows have the same key. */
  ghost predicate BatchCollision(parts: seq<KeyPart>, log: Log, hits: seq<nat>, assignments: seq<Assignment>) {
    exists k, l :: 0 <= k < l < |hits|
      && KeyIn(parts, NewRow(log, hits, assignments, k)) == KeyIn(parts, NewRow(log, hits, assignments, l))
  }

  ghost predicate FullWidth(parts: seq<KeyPart>, schema: Schema) {
    ValidParts(parts, schema) && forall p :: 0 <= p < |parts| ==> parts[p].len == schema[parts[p].pos].byteLen
  }

  // ---------------------------------------------------------------- the second check is exact on full-width parts

  lemma KeyableFromTyped(parts: seq<KeyPart>, row: Row, schema: Schema)
    requires WellTypedRow(row, schema) && ValidParts(parts, schema)
    ensures PartsFit(parts, row) && KeyableRow(parts, KeyValues(parts, row))
  {
    forall i | 0 <= i < |parts|
      ensures Keyable(parts[i], KeyValues(parts, row)[i])
    {
      assert WellTyped(row[parts[i].pos], schema[parts[i].pos]);
    }
  }

  /** At one column of two new rows: what the key keeps tells the values apart. */
  lemma NothingLost(log: Log, schema: Schema, hits: seq<nat>, assignments: seq<Assignment>, k: nat, l: nat, p: KeyPart)
    requires ValidUpdate(log, schema, hits, assignments) && k < |hits| && l < |hits|
    requires p.pos < |schema| && p.len == schema[p.pos].byteLen
    ensures |NewRow(log, hits, assignments, k)| == |NewRow(log, hits, assignments, l)| == |schema|
    ensures var x, y := NewRow(log, hits, assignments, k)[p.pos], NewRow(log, hits, assignments, l)[p.pos];
      Cut(x, p.len) == Cut(y, p.len) ==> x == y
  {
    var c := p.pos;
    NewRowAt(log, schema, hits, assignments, k, c);
    NewRowAt(log, schema, hits, assignments, l, c);
    NewValueIsTyped(log, schema, hits, assignments, k, c);
    NewValueIsTyped(log, schema, hits, assignments, l, c);
    if !exists i :: 0 <= i < |assignments| && assignments[i].column == c {
      NormalAt(log[hits[k]].row, schema, c);
      NormalAt(log[hits[l]].row, schema, c);
      StoredCut(log[hits[k]].row[c], schema[c]);
      StoredCut(log[hits[l]].row[c], schema[c]);
    }
  }

  lemma StoredCut(v: DataValue, rt: ResolvedType)
    requires WellTyped(v, rt) && Normal(v, rt) == v
    ensures Cut(v, rt.byteLen) == v
  {
    if v.BinVal? { assert |v.b| == rt.byteLen; assert v.b[..rt.byteLen] == v.b; }
  }

  lemma {:induction false} SameColumnsIffSameKey(parts: seq<KeyPart>, log: Log, schema: Schema, hits: seq<nat>,
                                                 assignments: seq<Assignment>, k: nat, l: nat)
    requires ValidUpdate(log, schema, hits, assignments) && k < |hits| && l < |hits| && FullWidth(parts, schema)
    ensures var u, v := NewRow(log, hits, assignments, k), NewRow(log, hits, assignments, l);
      SameColumns(parts, u, v) <==> KeyIn(parts, u) == KeyIn(parts, v)
  {
    hide ValidUpdate, NewRow, WellTypedRow, KeyOf, KeyableRow, CutAll, Cut, CompareValue, PartsFit, CompareFrom;
    var u, v := NewRow(log, hits, assignments, k), NewRow(log, hits, assignments, l);
    NewRowIsTyped(log, schema, hits, assignments, k);
    NewRowIsTyped(log, schema, hits, assignments, l);
    KeyableFromTyped(parts, u, schema);
    KeyableFromTyped(parts, v, schema);
    PartsWithin(parts, u, v);
    var x, y := KeyValues(parts, u), KeyValues(parts, v);
    SameKeyIffZero(parts, x, y);
    forall p | 0 <= p < |parts|
      ensures CompareValue(u[parts[p].pos], v[parts[p].pos]) == 0 <==> x[p] == y[p]
      ensures CutAll(parts, x)[p] == CutAll(parts, y)[p] ==> x[p] == y[p]
    {
      CompareZeroIffEqual(u[parts[p].pos], v[parts[p].pos]);
      CutAt(parts, x, p);
      CutAt(parts, y, p);
      NothingLost(log, schema, hits, assignments, k, l, parts[p]);
    }
    if SameColumns(parts, u, v) {
      assert x == y;
    }
  }

  lemma PartsWithin(parts: seq<KeyPart>, u: Row, v: Row)
    requires PartsFit(parts, u) && PartsFit(parts, v)
    ensures forall p :: 0 <= p < |parts| ==> parts[p].pos < |u| && parts[p].pos < |v|
  {
  }

  /** On full-width parts the comparison of whole values finds exactly the colliding keys. */
  lemma {:induction false} BatchCheckExact(parts: seq<KeyPart>, log: Log, schema: Schema, hits: seq<nat>, assignments: seq<Assignment>)
    requires ValidUpdate(log, schema, hits, assignments) && FullWidth(parts, schema)
    ensures BatchDuplicate(parts, log, hits, assignments) <==> BatchCollision(parts, log, hits, assignments)
  {
    hide ValidUpdate, FullWidth, SameColumns, KeyIn, NewRow;
    forall k, l | 0 <= k < l < |hits|
      ensures SameColumns(parts, NewRow(log, hits, assignments, k), NewRow(log, hits, assignments, l))
         <==> KeyIn(parts, NewRow(log, hits, assignments, k)) == KeyIn(parts, NewRow(log, hits, assignments, l))
    {
      SameColumnsIffSameKey(parts, log, schema, hits, assignments, k, l);
    }
  }

  // ---------------------------------------------------------------- one step of the update loop

  /** Storing a new row takes nothing from its key. */
  ghost predicate NewRowSteady(parts: seq<KeyPart>, log: Log, schema: Schema, hits: seq<nat>, assignments: seq<Assignment>, k: int) {
    |NewRow(log, hits, assignments, k)| == |schema| ==> Steady(parts, NewRow(log, hits, assignments, k), schema)
  }

  ghost predicate AllNewSteady(parts: seq<KeyPart>, log: Log, schema: Schema, hits: seq<nat>, assignments: seq<Assignment>) {
    forall k :: 0 <= k < |hits| ==> NewRowSteady(parts, log, schema, hits, assignments, k)
  }

  /** No assigned char value ends in a space. */
  ghost predicate TidyAssignments(assignments: seq<Assignment>, schema: Schema) {
    forall i :: 0 <= i < |assignments| ==>
      (assignments[i].value.StrVal? && assignments[i].column < |schema| && schema[assignments[i].column].columnType.CharType? ==>
         Trim(assignments[i].value.s) == assignments[i].value.s)
  }

  /** Then no new row has one that does: what was stored before is trimmed already. */
  lemma {:induction false} TidyAssignmentsSteady(parts: seq<KeyPart>, log: Log, schema: Schema, hits: seq<nat>, assignments: seq<Assignment>)
    requires ValidUpdate(log, schema, hits, assignments) && TidyAssignments(assignments, schema)
    ensures AllNewSteady(parts, log, schema, hits, assignments)
  {
    hide ValidUpdate, TidyAssignments, NewRow;
    forall k, p | 0 <= k < |hits| && 0 <= p < |parts| && |NewRow(log, hits, assignments, k)| == |schema|
      ensures SteadyPart(parts[p], NewRow(log, hits, assignments, k), schema)
    {
      if parts[p].pos < |schema| { NewValueTidy(log, schema, hits, assignments, k, parts[p].pos); }
    }
  }

  lemma NewValueTidy(log: Log, schema: Schema, hits: seq<nat>, assignments: seq<Assignment>, k: nat, c: nat)
    requires ValidUpdate(log, schema, hits, assignments) && TidyAssignments(assignments, schema) && k < |hits| && c < |schema|
    ensures |NewRow(log, hits, assignments, k)| == |schema|
    ensures var v := NewRow(log, hits, assignments, k)[c]; schema[c].columnType.CharType? && v.StrVal? ==> Trim(v.s) == v.s
  {
    NewRowAt(log, schema, hits, assignments, k, c);
    if i :| 0 <= i < |assignments| && assignments[i].column == c {
      LastForIsAssigned(assignments, c, i);
    } else {
      NormalAt(log[hits[k]].row, schema, c);
    }
  }

  /** Both checks passed, for one index, and no new row loses a trailing space its key uses. */
  ghost predicate Cleared(parts: seq<KeyPart>, log: Log, schema: Schema, hits: seq<nat>, assignments: seq<Assignment>) {
    && !Conflict(parts, log, hits, assignments) && !BatchCollision(parts, log, hits, assignments)
    && AllNewSteady(parts, log, schema, hits, assignments)
  }

  /** A new row can be stored, and keeps its key exactly when it is steady. */
  lemma NewKeyKept(parts: seq<KeyPart>, log: Log, schema: Schema, hits: seq<nat>, assignments: seq<Assignment>, k: nat)
    requires ValidUpdate(log, schema, hits, assignments) && k < |hits| && ValidParts(parts, schema)
    ensures hits[k] < |log|
    ensures KeyIn(parts, NormalAssigned(log[hits[k]].row, schema, assignments)) == KeyIn(parts, NewRow(log, hits, assignments, k))
       <==> NewRowSteady(parts, log, schema, hits, assignments, k)
    ensures StorableRow(NormalAssigned(log[hits[k]].row, schema, assignments), schema)
  {
    hide KeyIn, ValidParts, Steady;
    assert LiveAt(log, hits[k]);
    NewRowIsTyped(log, schema, hits, assignments, k);
    SteadyIffKeyKept(parts, NewRow(log, hits, assignments, k), schema);
    NormalRowIsFixed(NewRow(log, hits, assignments, k), schema);
  }

  /** The record about to be replaced is still live and still holds its old row. */
  lemma StillLive(log: Log, schema: Schema, hits: seq<nat>, assignments: seq<Assignment>, n: nat)
    requires ValidUpdate(log, schema, hits, assignments) && n < |hits|
    ensures var u := Updated(log, schema, hits, assignments, n);
      hits[n] < |log| && |u| == |log| + n && LiveAt(u, hits[n]) && u[hits[n]] == log[hits[n]]
  {
    assert forall k :: 0 <= k < |hits| ==> LiveAt(log, hits[k]);
    UpdatedIs(log, schema, hits, assignments, n);
    assert hits[n] !in hits[..n];
  }

  /** Where a key of the half-updated log can come from. */
  lemma {:induction false} NewKeyIsFree(m: Index, parts: seq<KeyPart>, log: Log, schema: Schema, hits: seq<nat>,
                                        assignments: seq<Assignment>, n: nat)
    requires ValidUpdate(log, schema, hits, assignments) && n < |hits| && ValidParts(parts, schema)
    requires Cleared(parts, log, schema, hits, assignments)
    requires Agrees(m, parts, Updated(log, schema, hits, assignments, n))
    ensures hits[n] < |log| && KeyIn(parts, log[hits[n]].row) in m
    ensures KeyIn(parts, NewRow(log, hits, assignments, n)) !in m - {KeyIn(parts, log[hits[n]].row)}
  {
    hide KeyIn, ValidParts, ValidLog, NormalAssigned, NewRow, Bytes;
    StillLive(log, schema, hits, assignments, n);
    var u := Updated(log, schema, hits, assignments, n);
    var was, key := KeyIn(parts, log[hits[n]].row), KeyIn(parts, NewRow(log, hits, assignments, n));
    if key in m && key != was {
      var r :| LiveAt(u, r) && KeyIn(parts, u[r].row) == key;
      KeyHolder(parts, log, schema, hits, assignments, n, r);
    }
  }

  lemma KeyHolder(parts: seq<KeyPart>, log: Log, schema: Schema, hits: seq<nat>, assignments: seq<Assignment>, n: nat, r: nat)
    requires ValidUpdate(log, schema, hits, assignments) && n < |hits| && ValidParts(parts, schema)
    requires Cleared(parts, log, schema, hits, assignments) && LiveAt(Updated(log, schema, hits, assignments, n), r)
    requires KeyIn(parts, Updated(log, schema, hits, assignments, n)[r].row) == KeyIn(parts, NewRow(log, hits, assignments, n))
    ensures hits[n] < |log| && KeyIn(parts, log[hits[n]].row) == KeyIn(parts, NewRow(log, hits, assignments, n))
  {
    hide KeyIn, ValidParts, ValidLog, NormalAssigned, NewRow, Bytes, Updated;
    assert forall k :: 0 <= k < |hits| ==> LiveAt(log, hits[k]);
    UpdatedIs(log, schema, hits, assignments, n);
    StillLive(log, schema, hits, assignments, n);
    var u := Updated(log, schema, hits, assignments, n);
    if r < |log| {
      assert LiveAt(log, r) && u[r] == log[r];
      assert !ConflictOf(parts, log, hits, assignments, n);
    } else {
      var k := r - |log|;
      NewKeyKept(parts, log, schema, hits, assignments, k);
    }
  }

  /** One step keeps one index in agreement: the old key goes, the new one is free and comes in. */
  lemma {:induction false} UpdateStepAgrees(m: Index, parts: seq<KeyPart>, log: Log, schema: Schema, hits: seq<nat>,
                                            assignments: seq<Assignment>, n: nat)
    requires ValidUpdate(log, schema, hits, assignments) && n < |hits| && ValidParts(parts, schema)
    requires Cleared(parts, log, schema, hits, assignments) && ValidLog(Updated(log, schema, hits, assignments, n), schema)
    requires Agrees(m, parts, Updated(log, schema, hits, assignments, n))
    ensures hits[n] < |log|
    ensures var was, key := KeyIn(parts, log[hits[n]].row), KeyIn(parts, NewRow(log, hits, assignments, n));
      Agrees((m - {was})[key := End(Updated(log, schema, hits, assignments, n), schema)], parts, Updated(log, schema, hits, assignments, n + 1))
  {
    hide KeyIn, ValidParts, ValidLog, NormalAssigned, NewRow, Bytes, Agrees, Updated, Conflict, BatchCollision, NewRowSteady, Kill;
    StillLive(log, schema, hits, assignments, n);
    NewKeyIsFree(m, parts, log, schema, hits, assignments, n);
    NewKeyKept(parts, log, schema, hits, assignments, n);
    UpdatedStep(log, schema, hits, assignments, n);
    var u := Updated(log, schema, hits, assignments, n);
    KillKeeps(u, schema, hits[n]);
    AgreesKill(m, parts, u, schema, hits[n]);
    AgreesAppend(m - {KeyIn(parts, log[hits[n]].row)}, parts, Kill(u, hits[n]), End(Kill(u, hits[n]), schema),
                 NormalAssigned(log[hits[n]].row, schema, assignments));
  }

  lemma {:induction false} UpdatedValid(log: Log, schema: Schema, hits: seq<nat>, assignments: seq<Assignment>, n: nat)
    requires ValidUpdate(log, schema, hits, assignments) && n <= |hits|
    ensures ValidLog(Updated(log, schema, hits, assignments, n), schema)
    decreases n
  {
    hide ValidLog, NormalAssigned, Bytes, Kill, StorableRow;
    if n > 0 {
      UpdatedValid(log, schema, hits, assignments, n - 1);
      StillLive(log, schema, hits, assignments, n - 1);
      UpdatedStep(log, schema, hits, assignments, n - 1);
      NewKeyKept([], log, schema, hits, assignments, n - 1);
      var u := Updated(log, schema, hits, assignments, n - 1);
      KillKeeps(u, schema, hits[n - 1]);
      AppendKeeps(Kill(u, hits[n - 1]), schema, NormalAssigned(log[hits[n - 1]].row, schema, assignments));
    }
  }

  // ---------------------------------------------------------------- what would happen without the second check

  /** Two new rows with one key: if the update went through, two live rows would share it. */
  lemma {:induction false} CollisionBreaksUniqueness(parts: seq<KeyPart>, log: Log, schema: Schema, hits: seq<nat>, assignments: seq<Assignment>)
    requires ValidUpdate(log, schema, hits, assignments) && ValidParts(parts, schema) && BatchCollision(parts, log, hits, assignments)
    requires AllNewSteady(parts, log, schema, hits, assignments)
    ensures !KeysUnique(parts, Updated(log, schema, hits, assignments, |hits|))
  {
    hide KeyIn, ValidParts, ValidLog, NormalAssigned, NewRow, Bytes, Updated;
    assert forall k :: 0 <= k < |hits| ==> LiveAt(log, hits[k]);
    UpdatedIs(log, schema, hits, assignments, |hits|);
    var u := Updated(log, schema, hits, assignments, |hits|);
    var k, l :| 0 <= k < l < |hits|
      && KeyIn(parts, NewRow(log, hits, assignments, k)) == KeyIn(parts, NewRow(log, hits, assignments, l));
    NewKeyKept(parts, log, schema, hits, assignments, k);
    NewKeyKept(parts, log, schema, hits, assignments, l);
    assert u[|log| + k].row == NormalAssigned(log[hits[k]].row, schema, assignments);
    assert u[|log| + l].row == NormalAssigned(log[hits[l]].row, schema, assignments);
    assert LiveAt(u, |log| + k) && LiveAt(u, |log| + l);
  }

  // ---------------------------------------------------------------- exactly when an index still agrees

  /** What the replacing loop does to one index: the old key goes and the new one comes in, row by row. */
  ghost function IndexAfter(m: Index, parts: seq<KeyPart>, log: Log, schema: Schema, hits: seq<nat>, assignments: seq<Assignment>, n: nat): Index
    requires n <= |hits|
  {
    if n == 0 then m
    else if hits[n - 1] >= |log| then IndexAfter(m, parts, log, schema, hits, assignments, n - 1)
    else
      (IndexAfter(m, parts, log, schema, hits, assignments, n - 1) - {KeyIn(parts, log[hits[n - 1]].row)})
        [KeyIn(parts, NewRow(log, hits, assignments, n - 1)) := End(Updated(log, schema, hits, assignments, n - 1), schema)]
  }

  lemma {:induction false} ClearedAgrees(m: Index, parts: seq<KeyPart>, log: Log, schema: Schema, hits: seq<nat>, assignments: seq<Assignment>, n: nat)
    requires ValidUpdate(log, schema, hits, assignments) && n <= |hits| && ValidParts(parts, schema)
    requires Cleared(parts, log, schema, hits, assignments) && Agrees(m, parts, log)
    ensures Agrees(IndexAfter(m, parts, log, schema, hits, assignments, n), parts, Updated(log, schema, hits, assignments, n))
    decreases n
  {
    hide KeyIn, ValidParts, ValidUpdate, NewRow, Bytes, Agrees, Cleared;
    if n > 0 {
      ClearedAgrees(m, parts, log, schema, hits, assignments, n - 1);
      UpdatedValid(log, schema, hits, assignments, n - 1);
      hide Updated;
      UpdateStepAgrees(IndexAfter(m, parts, log, schema, hits, assignments, n - 1), parts, log, schema, hits, assignments, n - 1);
    }
  }

  /** The log of the next step: one record killed, one appended at the end. */
  lemma NextLog(log: Log, schema: Schema, hits: seq<nat>, assignments: seq<Assignment>, n: nat)
    requires ValidUpdate(log, schema, hits, assignments) && n < |hits|
    ensures var u, v := Updated(log, schema, hits, assignments, n), Updated(log, schema, hits, assignments, n + 1);
      && hits[n] < |log| && |u| == |log| + n && |v| == |u| + 1
      && (forall i :: 0 <= i < |u| ==> v[i].at == u[i].at && u[i].at < End(u, schema))
      && v[|u|].at == End(u, schema) < End(v, schema)
  {
    hide ValidUpdate, ValidLog, NormalAssigned, Bytes, Updated;
    StillLive(log, schema, hits, assignments, n);
    UpdatedValid(log, schema, hits, assignments, n);
    UpdatedValid(log, schema, hits, assignments, n + 1);
    UpdatedStep(log, schema, hits, assignments, n);
    var u, v := Updated(log, schema, hits, assignments, n), Updated(log, schema, hits, assignments, n + 1);
    KillKeeps(u, schema, hits[n]);
    forall i | 0 <= i < |u| ensures u[i].at < End(u, schema) { FramesInPlace(u, schema, i); }
    FramesInPlace(v, schema, |u|);
  }

  /** All offsets of the index point into the file, and a new row's offset only stands under its own new key. */
  ghost predicate WrittenRight(after: Index, parts: seq<KeyPart>, log: Log, schema: Schema, hits: seq<nat>, assignments: seq<Assignment>, n: nat, u: Log) {
    && |u| == |log| + n
    && (forall key :: key in after ==> after[key] < End(u, schema))
    && (forall key, r :: key in after && |log| <= r < |u| && after[key] == u[r].at ==> key == KeyIn(parts, NewRow(log, hits, assignments, r - |log|)))
  }

  lemma OneMoreWritten(before: Index, was: Key, parts: seq<KeyPart>, log: Log, schema: Schema, hits: seq<nat>, assignments: seq<Assignment>, n: nat, u: Log, v: Log)
    requires WrittenRight(before, parts, log, schema, hits, assignments, n, u)
    requires |v| == |u| + 1 && v[|u|].at == End(u, schema) < End(v, schema)
    requires forall i :: 0 <= i < |u| ==> v[i].at == u[i].at && u[i].at < End(u, schema)
    ensures WrittenRight((before - {was})[KeyIn(parts, NewRow(log, hits, assignments, n)) := End(u, schema)], parts, log, schema, hits, assignments, n + 1, v)
  {
    hide KeyIn, NewRow, Bytes, End;
  }

  lemma NothingWritten(m: Index, parts: seq<KeyPart>, log: Log, schema: Schema, hits: seq<nat>, assignments: seq<Assignment>)
    requires ValidUpdate(log, schema, hits, assignments) && Agrees(m, parts, log)
    ensures WrittenRight(m, parts, log, schema, hits, assignments, 0, Updated(log, schema, hits, assignments, 0))
  {
    hide KeyIn, ValidLog, NewRow, Bytes;
    forall key | key in m ensures m[key] < End(log, schema) {
      var i :| LiveAt(log, i) && KeyIn(parts, log[i].row) == key;
      FramesInPlace(log, schema, i);
    }
  }

  lemma {:induction false} WrittenUnder(m: Index, parts: seq<KeyPart>, log: Log, schema: Schema, hits: seq<nat>, assignments: seq<Assignment>, n: nat)
    requires ValidUpdate(log, schema, hits, assignments) && n <= |hits| && Agrees(m, parts, log)
    ensures WrittenRight(IndexAfter(m, parts, log, schema, hits, assignments, n), parts, log, schema, hits, assignments, n, Updated(log, schema, hits, assignments, n))
    decreases n
  {
    hide KeyIn, ValidUpdate, NewRow, Bytes, Agrees, Updated, WrittenRight;
    if n == 0 {
      NothingWritten(m, parts, log, schema, hits, assignments);
    } else {
      WrittenUnder(m, parts, log, schema, hits, assignments, n - 1);
      NextLog(log, schema, hits, assignments, n - 1);
      OneMoreWritten(IndexAfter(m, parts, log, schema, hits, assignments, n - 1), KeyIn(parts, log[hits[n - 1]].row), parts, log, schema, hits, assignments,
                     n - 1, Updated(log, schema, hits, assignments, n - 1), Updated(log, schema, hits, assignments, n));
    }
  }

  /** If the index agrees after all, the row stored for record `k` stands under its own new key. */
  lemma StoredUnderNewKey(after: Index, parts: seq<KeyPart>, log: Log, schema: Schema, hits: seq<nat>, assignments: seq<Assignment>, k: nat)
    requires ValidUpdate(log, schema, hits, assignments) && ValidParts(parts, schema) && k < |hits|
    requires Agrees(after, parts, Updated(log, schema, hits, assignments, |hits|))
    requires WrittenRight(after, parts, log, schema, hits, assignments, |hits|, Updated(log, schema, hits, assignments, |hits|))
    ensures NewRowSteady(parts, log, schema, hits, assignments, k)
  {
    hide KeyIn, ValidParts, ValidLog, NewRow, Bytes, Updated, NormalAssigned, ValidAssignments, NewRowSteady;
    assert forall i :: 0 <= i < |hits| ==> LiveAt(log, hits[i]);
    UpdatedIs(log, schema, hits, assignments, |hits|);
    var u := Updated(log, schema, hits, assignments, |hits|);
    var r := |log| + k;
    assert LiveAt(u, r) && hits[r - |log|] == hits[k];
    assert u[r].row == NormalAssigned(log[hits[k]].row, schema, assignments);
    NewKeyKept(parts, log, schema, hits, assignments, k);
  }

  /**
   * After an update no first check stops, an index agrees with the file exactly when the new rows' keys are
   * pairwise distinct and storing takes nothing from any of them.
   */
  lemma {:induction false} UpdateAgreesIff(m: Index, parts: seq<KeyPart>, log: Log, schema: Schema, hits: seq<nat>, assignments: seq<Assignment>)
    requires ValidUpdate(log, schema, hits, assignments) && ValidParts(parts, schema) && Agrees(m, parts, log)
    requires !Conflict(parts, log, hits, assignments)
    ensures Agrees(IndexAfter(m, parts, log, schema, hits, assignments, |hits|), parts, Updated(log, schema, hits, assignments, |hits|))
       <==> !BatchCollision(parts, log, hits, assignments) && AllNewSteady(parts, log, schema, hits, assignments)
  {
    hide KeyIn, ValidParts, Conflict, BatchCollision, NewRowSteady, ValidLog, NewRow, Bytes, Updated, IndexAfter, WrittenRight, ValidUpdate, Agrees;
    var after, u := IndexAfter(m, parts, log, schema, hits, assignments, |hits|), Updated(log, schema, hits, assignments, |hits|);
    if Cleared(parts, log, schema, hits, assignments) {
      ClearedAgrees(m, parts, log, schema, hits, assignments, |hits|);
    } else if Agrees(after, parts, u) {
      WrittenUnder(m, parts, log, schema, hits, assignments, |hits|);
      forall k | 0 <= k < |hits| ensures NewRowSteady(parts, log, schema, hits, assignments, k) {
        StoredUnderNewKey(after, parts, log, schema, hits, assignments, k);
      }
      UpdatedValid(log, schema, hits, assignments, |hits|);
      AgreementMeansUnique(after, parts, u, schema);
      CollisionBreaksUniqueness(parts, log, schema, hits, assignments);
    }
  }

  // ---------------------------------------------------------------- a prefix part slips through the second check

  /** An index on a number and the first letter of a name. */
  function PrefixParts(): seq<KeyPart> {
    [KeyPart(0, IntType, 4), KeyPart(1, VarcharType, 1)]
  }

  function PrefixSchema(): Schema {
    [ResolvedType(IntType, 4), ResolvedType(VarcharType, 2)]
  }

  function Named(n: int, letter: byte): Row {
    [IntVal(n), StrVal([97, letter])]
  }

  ghost function TwoRows(): Log {
    var first := Record(0, false, Named(1, 120));
    [first, Record(|RowFrame(first, PrefixSchema())|, false, Named(2, 121))]
  }

  lemma NamedKey(n: int, letter: byte)
    requires IsInt32(n)
    ensures PartsFit(PrefixParts(), Named(n, letter)) && KeyIn(PrefixParts(), Named(n, letter)) == IntBytes(n) + [97]
  {
    var parts, row := PrefixParts(), Named(n, letter);
    var v := KeyValues(parts, row);
    assert v == [IntVal(n), StrVal([97, letter])];
    assert parts[1..] == [KeyPart(1, VarcharType, 1)] && v[1..] == [StrVal([97, letter])] && parts[1..][1..] == [];
    assert PartBytes(IntVal(n), 4) == IntBytes(n) && PartBytes(StrVal([97, letter]), 1) == [97];
    assert KeyOf(parts[1..], v[1..]) == [97] + [];
  }

  lemma NamedStorable(n: int, letter: byte)
    requires IsInt32(n) && letter != 0
    ensures StorableRow(Named(n, letter), PrefixSchema())
  {
    var row, schema := Named(n, letter), PrefixSchema();
    assert row[1..] == [StrVal([97, letter])] && schema[1..] == [ResolvedType(VarcharType, 2)];
    assert row[1..][1..] == [];
  }

  lemma PrefixNewRows()
    ensures NewRow(TwoRows(), [0, 1], [Assignment(0, IntVal(3))], 0) == Named(3, 120)
    ensures NewRow(TwoRows(), [0, 1], [Assignment(0, IntVal(3))], 1) == Named(3, 121)
  {
    NewNamed(1, 120);
    NewNamed(2, 121);
  }

  lemma NoOldKey(k: int)
    ensures !ConflictOf(PrefixParts(), TwoRows(), [0, 1], [Assignment(0, IntVal(3))], k)
  {
    hide NewRow, RowFrame;
    PrefixNewRows();
    NamedKey(1, 120);
    NamedKey(2, 121);
    NamedKey(3, 120);
    NamedKey(3, 121);
    IntsDiffer();
    hide KeyIn, Named, IntBytes;
  }

  lemma NotTheSameName()
    ensures !SameColumns(PrefixParts(), Named(3, 120), Named(3, 121))
  {
    CompareZeroIffEqual(StrVal([97, 120]), StrVal([97, 121]));
    assert PrefixParts()[1].pos == 1;
  }

  /** Setting the number of both rows to 3 passes both checks, and gives them the same key. */
  lemma {:induction false} PrefixSlipsThrough()
    ensures var log, set3 := TwoRows(), [Assignment(0, IntVal(3))];
      && ValidUpdate(log, PrefixSchema(), [0, 1], set3) && ValidParts(PrefixParts(), PrefixSchema())
      && !Conflict(PrefixParts(), log, [0, 1], set3) && !BatchDuplicate(PrefixParts(), log, [0, 1], set3)
      && BatchCollision(PrefixParts(), log, [0, 1], set3)
  {
    hide ValidLog, NewRow, KeyIn, SameColumns, ConflictOf, RowFrame;
    var log, set3 := TwoRows(), [Assignment(0, IntVal(3))];
    TwoRowsValid();
    PrefixNewRows();
    NamedKey(3, 120);
    NamedKey(3, 121);
    NotTheSameName();
    forall k ensures !ConflictOf(PrefixParts(), log, [0, 1], set3, k) { NoOldKey(k); }
    assert KeyIn(PrefixParts(), NewRow(log, [0, 1], set3, 0)) == KeyIn(PrefixParts(), NewRow(log, [0, 1], set3, 1));
  }

  lemma IntsDiffer()
    ensures IntBytes(3) + [97] != IntBytes(1) + [97] && IntBytes(3) + [97] != IntBytes(2) + [97]
  {
    assert (IntBytes(3) + [97])[0] == 3 && (IntBytes(1) + [97])[0] == 1 && (IntBytes(2) + [97])[0] == 2;
  }

  lemma NewNamed(n: int, letter: byte)
    ensures Assigned(Named(n, letter), [Assignment(0, IntVal(3))]) == Named(3, letter)
  {
    assert [Assignment(0, IntVal(3))][..0] == [];
  }

  lemma TwoRowsValid()
    ensures ValidSchema(PrefixSchema()) && ValidLog(TwoRows(), PrefixSchema())
  {
    hide RowFrame, StorableRow;
    NamedStorable(1, 120);
    NamedStorable(2, 121);
    var log := TwoRows();
    Unfold(log, PrefixSchema());
    assert log[..1] == [log[0]];
    Unfold(log[..1], PrefixSchema());
    assert log[..1][..0] == [];
  }
}
