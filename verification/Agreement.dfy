/** An index as the map its interface promises, and what it means for it to agree with the data file. */
module Agreement {
  import opened Ordering
  import opened Values
  import opened KeyOrder
  import opened KeyRefinement
  import opened RowCodec
  import opened DataFile
  import opened RowSources

  datatype IndexDefinition = IndexDefinition(name: string, parts: seq<KeyPart>)

  /** What insert, search and delete of the index interface work on. */
  type Index = map<Key, FileOffset>

  /** Definitions as the planner of create-index lets them through, with int parts of full width. */
  ghost predicate ValidParts(parts: seq<KeyPart>, schema: Schema) {
    forall i :: 0 <= i < |parts| ==>
      && parts[i].pos < |schema| && parts[i].columnType == schema[parts[i].pos].columnType
      && 1 <= parts[i].len <= schema[parts[i].pos].byteLen
      && (parts[i].columnType.IntType? ==> parts[i].len == 4)
  }

  ghost predicate ValidDefinitions(defs: seq<IndexDefinition>, schema: Schema) {
    forall j :: 0 <= j < |defs| ==> ValidParts(defs[j].parts, schema)
  }

  /** The key of a row in an index. */
  function KeyIn(parts: seq<KeyPart>, row: Row): Key {
    if PartsFit(parts, row) then RowKey(parts, row) else []
  }

  ghost predicate LiveAt(log: Log, i: int) {
    0 <= i < |log| && !log[i].dead
  }

  /** Every live row's key leads to its offset, and every key comes from a live row. */
  ghost predicate Agrees(m: Index, parts: seq<KeyPart>, log: Log) {
    && (forall i :: LiveAt(log, i) ==> KeyIn(parts, log[i].row) in m && m[KeyIn(parts, log[i].row)] == log[i].at)
    && (forall k :: k in m ==> exists i :: LiveAt(log, i) && KeyIn(parts, log[i].row) == k)
  }

  ghost predicate AllAgree(indexes: seq<Index>, defs: seq<IndexDefinition>, log: Log) {
    |indexes| == |defs| && forall j :: 0 <= j < |defs| ==> Agrees(indexes[j], defs[j].parts, log)
  }

  /** No two live rows share a key. */
  ghost predicate KeysUnique(parts: seq<KeyPart>, log: Log) {
    forall i, j :: LiveAt(log, i) && LiveAt(log, j) && KeyIn(parts, log[i].row) == KeyIn(parts, log[j].row) ==> i == j
  }

  lemma {:induction false} AgreementMeansUnique(m: Index, parts: seq<KeyPart>, log: Log, schema: Schema)
    requires ValidLog(log, schema) && Agrees(m, parts, log)
    ensures KeysUnique(parts, log)
  {
    forall i, j | LiveAt(log, i) && LiveAt(log, j) && KeyIn(parts, log[i].row) == KeyIn(parts, log[j].row)
      ensures i == j
    {
      OffsetsDiffer(log, schema, i, j);
    }
  }

  /** A file has at most one index that agrees with it. */
  lemma {:induction false} AgreementIsUnique(a: Index, b: Index, parts: seq<KeyPart>, log: Log)
    requires Agrees(a, parts, log) && Agrees(b, parts, log)
    ensures a == b
  {
    assert forall k :: k in a ==> k in b && a[k] == b[k];
    assert forall k :: k in b ==> k in a;
  }

  lemma EmptyAgrees(parts: seq<KeyPart>)
    ensures Agrees(map[], parts, [])
  {
  }

  /** Appending a row whose key is new. */
  lemma {:induction false} AgreesAppend(m: Index, parts: seq<KeyPart>, log: Log, at: nat, row: Row)
    requires Agrees(m, parts, log) && KeyIn(parts, row) !in m
    ensures Agrees(m[KeyIn(parts, row) := at], parts, log + [Record(at, false, row)])
  {
    hide KeyIn;
    var more, key := log + [Record(at, false, row)], KeyIn(parts, row);
    var m2 := m[key := at];
    forall k | k in m2
      ensures exists i :: LiveAt(more, i) && KeyIn(parts, more[i].row) == k
    {
      if k == key {
        assert LiveAt(more, |log|);
      } else {
        var i :| LiveAt(log, i) && KeyIn(parts, log[i].row) == k;
        assert LiveAt(more, i);
      }
    }
    forall i | LiveAt(more, i)
      ensures KeyIn(parts, more[i].row) in m2 && m2[KeyIn(parts, more[i].row)] == more[i].at
    {
      if i < |log| { assert LiveAt(log, i); }
    }
  }

  /** Deleting a live row and its key. */
  lemma {:induction false} AgreesKill(m: Index, parts: seq<KeyPart>, log: Log, schema: Schema, i: nat)
    requires ValidLog(log, schema) && Agrees(m, parts, log) && LiveAt(log, i)
    ensures Agrees(m - {KeyIn(parts, log[i].row)}, parts, Kill(log, i))
  {
    AgreementMeansUnique(m, parts, log, schema);
    hide KeyIn;
    var less, key := Kill(log, i), KeyIn(parts, log[i].row);
    forall k | k in m - {key}
      ensures exists j :: LiveAt(less, j) && KeyIn(parts, less[j].row) == k
    {
      var j :| LiveAt(log, j) && KeyIn(parts, log[j].row) == k;
      assert LiveAt(less, j);
    }
    forall j | LiveAt(less, j)
      ensures KeyIn(parts, less[j].row) in m - {key} && m[KeyIn(parts, less[j].row)] == less[j].at
    {
      assert LiveAt(log, j);
    }
  }

  // ---------------------------------------------------------------- keys of rows that are not stored yet

  /** Trimming takes nothing from the bytes a part keeps of a char value. */
  ghost predicate SteadyPart(p: KeyPart, values: Row, schema: Schema)
    requires |values| == |schema|
  {
    p.pos < |schema| && schema[p.pos].columnType.CharType? && values[p.pos].StrVal? ==>
      |Trim(values[p.pos].s)| == |values[p.pos].s| || p.len <= |Trim(values[p.pos].s)|
  }

  ghost predicate Steady(parts: seq<KeyPart>, values: Row, schema: Schema)
    requires |values| == |schema|
  {
    forall i :: 0 <= i < |parts| ==> SteadyPart(parts[i], values, schema)
  }

  lemma PartStable(values: Row, schema: Schema, p: KeyPart)
    requires WellTypedRow(values, schema) && p.pos < |schema| && p.len <= schema[p.pos].byteLen
    ensures PartBytes(NormalRow(values, schema)[p.pos], p.len) == PartBytes(values[p.pos], p.len) <==> SteadyPart(p, values, schema)
  {
    NormalAt(values, schema, p.pos);
    assert WellTyped(values[p.pos], schema[p.pos]);
    if schema[p.pos].columnType.BinaryType? {
      BinaryKeyStable(values[p.pos], schema[p.pos], p.len);
    }
    if schema[p.pos].columnType.CharType? {
      CharKeyStable(values[p.pos], schema[p.pos], p.len);
    }
  }

  /** A row keeps its key when it is stored exactly when trimming takes nothing the key uses. */
  lemma {:induction false} SteadyIffKeyKept(parts: seq<KeyPart>, values: Row, schema: Schema)
    requires WellTypedRow(values, schema) && ValidParts(parts, schema)
    ensures KeyIn(parts, NormalRow(values, schema)) == KeyIn(parts, values) <==> Steady(parts, values, schema)
  {
    hide PartBytes, KeyOf, NormalRow, SteadyPart;
    var u, v := KeyValues(parts, NormalRow(values, schema)), KeyValues(parts, values);
    forall i | 0 <= i < |parts|
      ensures PartBytes(u[i], parts[i].len) == PartBytes(v[i], parts[i].len) <==> SteadyPart(parts[i], values, schema)
    {
      PartStable(values, schema, parts[i]);
    }
    SameParts(parts, u, v);
  }

  /**
   * A row is indexed under the key of the values given, but stored trimmed: the index agrees with the file
   * after that exactly when trimming takes nothing the key uses.
   */
  lemma {:induction false} InsertAgreesIffSteady(m: Index, parts: seq<KeyPart>, log: Log, schema: Schema, values: Row)
    requires WellTypedRow(values, schema) && ValidParts(parts, schema) && ValidLog(log, schema) && Agrees(m, parts, log)
    requires KeyIn(parts, values) !in m
    ensures Agrees(m[KeyIn(parts, values) := End(log, schema)], parts, log + [Record(End(log, schema), false, NormalRow(values, schema))])
       <==> Steady(parts, values, schema)
  {
    hide KeyIn, NormalRow, Steady, ValidParts, ValidLog;
    SteadyIffKeyKept(parts, values, schema);
    var row, at := NormalRow(values, schema), End(log, schema);
    var more := log + [Record(at, false, row)];
    if KeyIn(parts, row) == KeyIn(parts, values) {
      AgreesAppend(m, parts, log, at, row);
    } else {
      assert LiveAt(more, |log|) && more[|log|].row == row;
      if KeyIn(parts, row) in m {
        var i :| LiveAt(log, i) && KeyIn(parts, log[i].row) == KeyIn(parts, row);
        FramesInPlace(log, schema, i);
        assert m[KeyIn(parts, row)] == log[i].at != at;
      }
    }
  }
}
