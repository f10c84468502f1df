/** Loading a schema file: parse, then resolve columns, types, defaults and indexes. */
module SchemaLoad {
  import opened Ordering
  import opened Values
  import opened KeyOrder
  import opened Lexer
  import opened Parser
  import opened ParserMethods
  import opened Literals
  import opened SchemaText

  datatype LoadError =
    | ParseFailed | TooManyColumns | BadColumnName | BadTypeLength | TypeUnresolved | BadDefault
    | TooManyIndexes | UnknownIndexType | TooManyParts | NoSuchColumn | BadPartLength

  datatype Result<+T> = Success(value: T) | Failure(error: LoadError)

  /** sv_to_cstr into a buffer of `n` characters and the closing zero. */
  function Clip(s: string, n: nat): string {
    if |s| > n then s[..n] else s
  }

  predicate IsColumnChar(c: char) {
    'a' <= c <= 'z' || c == '_'
  }

  /** schema_validate_column_name. */
  predicate ColumnNameOk(name: string) {
    0 < |name| <= MAX_COLUMN_NAME_SIZE && forall i :: 0 <= i < |name| ==> IsColumnChar(name[i])
  }

  /** type_by_name. */
  function TypeByName(name: string): Option<ColumnType> {
    if name == "int" then Some(IntType)
    else if name == "varchar" then Some(VarcharType)
    else if name == "char" then Some(CharType)
    else if name == "binary" then Some(BinaryType)
    else None
  }

  function MaxLen(t: ColumnType): nat {
    match t
    case IntType => 0
    case VarcharType => MAX_VARCHAR_VALUE_SIZE
    case CharType => MAX_CHAR_VALUE_SIZE
    case BinaryType => MAX_BINARY_VALUE_SIZE
  }

  /** resolve_type. */
  function ResolveType(name: string, len: Option<nat>): Result<ResolvedType> {
    var t := TypeByName(name);
    if t.None? then Failure(TypeUnresolved)
    else if t.value.IntType? then (if len.Some? then Failure(TypeUnresolved) else Success(ResolvedType(IntType, 4)))
    else if len.None? || len.value > MaxLen(t.value) || len.value < 1 then Failure(TypeUnresolved)
    else Success(ResolvedType(t.value, len.value))
  }

  /** A length in parentheses, which must fit a byte. */
  function TypeLength(text: Option<string>): Result<Option<nat>> {
    if text.None? then Success(None)
    else
      var c := ConvertInt(text.value);
      if c.Refused? || !c.value.IntVal? || c.value.n < 0 || c.value.n > 255 then Failure(BadTypeLength) else Success(Some(c.value.n))
  }

  /** convert_value. */
  function ConvertValue(raw: RawValue): Converted {
    match raw
    case NumberLiteral(text) => if '.' in text then Refused(FloatLiteral) else ConvertInt(text)
    case StringLiteral(text) => ConvertString(text)
    case HexLiteral(text) => ConvertHex(text)
    case NoLiteral => Refused(UnknownLiteral)
  }

  function ResolveDefault(raw: Option<RawValue>): Result<Option<DataValue>> {
    if raw.None? then Success(None)
    else
      var c := ConvertValue(raw.value);
      if c.Refused? then Failure(BadDefault) else Success(Some(c.value))
  }

  function ResolveColumn(def: ColumnDef): Result<Column> {
    var name := Clip(def.column, MAX_COLUMN_NAME_SIZE);
    if !ColumnNameOk(name) then Failure(BadColumnName)
    else
      var len := TypeLength(def.columnType.len);
      if len.Failure? then Failure(len.error)
      else
        var rt := ResolveType(Clip(def.columnType.name, MAX_TYPE_NAME_SIZE), len.value);
        if rt.Failure? then Failure(rt.error)
        else
          var d := ResolveDefault(def.defaultValue);
          if d.Failure? then Failure(d.error) else Success(Column(name, rt.value, d.value))
  }

  /** The columns resolved so far and the next one. */
  function ResolveColumns(defs: seq<ColumnDef>): Result<seq<Column>> {
    if defs == [] then Success([])
    else
      var before := ResolveColumns(defs[..|defs| - 1]);
      if before.Failure? then before
      else if |before.value| >= MAX_COLUMNS_PER_TABLE then Failure(TooManyColumns)
      else
        var c := ResolveColumn(defs[|defs| - 1]);
        if c.Failure? then Failure(c.error) else Success(before.value + [c.value])
  }

  /** table_column_pos: the first column of that name. */
  function ColumnPos(columns: seq<Column>, name: string): Option<nat> {
    if columns == [] then None
    else if columns[0].name == name then Some(0)
    else
      var r := ColumnPos(columns[1..], name);
      if r.None? then None else Some(r.value + 1)
  }

  lemma {:induction false} ColumnPosBound(columns: seq<Column>, name: string)
    ensures ColumnPos(columns, name).Some? ==> ColumnPos(columns, name).value < |columns|
    decreases |columns|
  {
    if columns != [] { ColumnPosBound(columns[1..], name); }
  }

  function PartLength(text: Option<string>, byteLen: nat): Result<nat> {
    if text.None? then Success(byteLen)
    else
      var c := ConvertInt(text.value);
      if c.Refused? || !c.value.IntVal? || c.value.n < 1 || c.value.n > byteLen then Failure(BadPartLength) else Success(c.value.n)
  }

  /** resolve_index_part. */
  function ResolvePart(def: PartDef, columns: seq<Column>): Result<KeyPart> {
    var pos := ColumnPos(columns, Clip(def.column, MAX_COLUMN_NAME_SIZE));
    if pos.None? || pos.value >= |columns| then Failure(NoSuchColumn)
    else
      var rt := columns[pos.value].columnType;
      var len := PartLength(def.len, rt.byteLen);
      if len.Failure? then Failure(len.error) else Success(KeyPart(pos.value, rt.columnType, len.value))
  }

  /** The parts resolved so far: names, parts and the summed size. */
  function ResolveParts(defs: seq<PartDef>, columns: seq<Column>): Result<(seq<string>, seq<KeyPart>, nat)> {
    if defs == [] then Success(([], [], 0))
    else
      var before := ResolveParts(defs[..|defs| - 1], columns);
      var def := defs[|defs| - 1];
      if before.Failure? then before
      else if |before.value.1| >= MAX_INDEX_COLUMN_COUNT then Failure(TooManyParts)
      else
        var part := ResolvePart(def, columns);
        if part.Failure? then Failure(part.error)
        else
          Success((before.value.0 + [Clip(def.column, MAX_COLUMN_NAME_SIZE)], before.value.1 + [part.value], before.value.2 + part.value.len))
  }

  function ResolveIndex(def: IndexDef, columns: seq<Column>): Result<TableIndex> {
    if Clip(def.typeName, MAX_INDEX_TYPE_NAME_SIZE) != "btree" then Failure(UnknownIndexType)
    else
      var p := ResolveParts(def.parts, columns);
      if p.Failure? then Failure(p.error)
      else Success(TableIndex(Clip(def.name, MAX_INDEX_NAME_SIZE), def.unique, BTREE_NODE_DEFAULT_SIZE, p.value.2, p.value.0, p.value.1))
  }

  function ResolveIndexes(defs: seq<IndexDef>, columns: seq<Column>): Result<seq<TableIndex>> {
    if defs == [] then Success([])
    else
      var before := ResolveIndexes(defs[..|defs| - 1], columns);
      if before.Failure? then before
      else if |before.value| >= MAX_TABLE_INDEX_COUNT then Failure(TooManyIndexes)
      else
        var ix := ResolveIndex(defs[|defs| - 1], columns);
        if ix.Failure? then Failure(ix.error) else Success(before.value + [ix.value])
  }

  function ResolveTable(def: SchemaDef): Result<Table> {
    var columns := ResolveColumns(def.columns);
    if columns.Failure? then Failure(columns.error)
    else
      var indexes := ResolveIndexes(def.indexes, columns.value);
      if indexes.Failure? then Failure(indexes.error) else Success(Table(columns.value, indexes.value))
  }

  /** What a text loads as. */
  function LoadText(text: string): Result<Table> {
    var tokens := Tokens(text);
    var (end, def) := ParseSchema(State(tokens, tokens[0].kind == Invalid));
    if end.failed then Failure(ParseFailed) else ResolveTable(def)
  }

  // ---------------------------------------------------------------- the loops

  method TableColumnPos(columns: seq<Column>, name: string) returns (pos: Option<nat>)
    ensures pos == ColumnPos(columns, name)
    ensures pos.Some? ==> pos.value < |columns| && columns[pos.value].name == name
    ensures forall k :: 0 <= k < (if pos.Some? then pos.value else |columns|) ==> columns[k].name != name
  {
    for i := 0 to |columns|
      invariant ColumnPos(columns, name) == Shifted(ColumnPos(columns[i..], name), i)
      invariant forall k :: 0 <= k < i ==> columns[k].name != name
    {
      assert columns[i..][1..] == columns[i + 1..];
      if columns[i].name == name {
        return Some(i);
      }
    }
    return None;
  }

  function Shifted(pos: Option<nat>, i: nat): Option<nat> {
    if pos.None? then None else Some(pos.value + i)
  }

  /** The column loop of schema_load_table. */
  method LoadColumns(defs: seq<ColumnDef>) returns (columns: Result<seq<Column>>)
    ensures columns == ResolveColumns(defs)
  {
    hide ResolveColumn;
    var done: seq<Column> := [];
    for i := 0 to |defs|
      invariant ResolveColumns(defs[..i]) == Success(done)
    {
      assert defs[..i + 1][..i] == defs[..i];
      if |done| >= MAX_COLUMNS_PER_TABLE {
        ColumnsStopAt(defs, i + 1);
        return Failure(TooManyColumns);
      }
      var c := ResolveColumn(defs[i]);
      if c.Failure? {
        ColumnsStopAt(defs, i + 1);
        return Failure(c.error);
      }
      done := done + [c.value];
    }
    assert defs[..|defs|] == defs;
    return Success(done);
  }

  /** Once a prefix has failed, the whole has. */
  lemma {:induction false} ColumnsStopAt(defs: seq<ColumnDef>, i: nat)
    requires i <= |defs| && ResolveColumns(defs[..i]).Failure?
    ensures ResolveColumns(defs) == ResolveColumns(defs[..i])
    decreases |defs| - i
  {
    hide ResolveColumn;
    if i < |defs| {
      assert defs[..i + 1][..i] == defs[..i];
      ColumnsStopAt(defs, i + 1);
    } else {
      assert defs[..i] == defs;
    }
  }

  /** The part loop of index_resolve. */
  method LoadParts(defs: seq<PartDef>, columns: seq<Column>) returns (parts: Result<(seq<string>, seq<KeyPart>, nat)>)
    ensures parts == ResolveParts(defs, columns)
  {
    hide ResolvePart;
    var names: seq<string> := [];
    var done: seq<KeyPart> := [];
    var keySize: nat := 0;
    for i := 0 to |defs|
      invariant ResolveParts(defs[..i], columns) == Success((names, done, keySize))
    {
      assert defs[..i + 1][..i] == defs[..i];
      if |done| >= MAX_INDEX_COLUMN_COUNT {
        PartsStopAt(defs, columns, i + 1);
        return Failure(TooManyParts);
      }
      var part := ResolvePart(defs[i], columns);
      if part.Failure? {
        PartsStopAt(defs, columns, i + 1);
        return Failure(part.error);
      }
      names, done, keySize := names + [Clip(defs[i].column, MAX_COLUMN_NAME_SIZE)], done + [part.value], keySize + part.value.len;
    }
    assert defs[..|defs|] == defs;
    return Success((names, done, keySize));
  }

  lemma {:induction false} PartsStopAt(defs: seq<PartDef>, columns: seq<Column>, i: nat)
    requires i <= |defs| && ResolveParts(defs[..i], columns).Failure?
    ensures ResolveParts(defs, columns) == ResolveParts(defs[..i], columns)
    decreases |defs| - i
  {
    hide ResolvePart;
    if i < |defs| {
      assert defs[..i + 1][..i] == defs[..i];
      PartsStopAt(defs, columns, i + 1);
    } else {
      assert defs[..i] == defs;
    }
  }

  /** The index loop of index_resolve. */
  method LoadIndexes(defs: seq<IndexDef>, columns: seq<Column>) returns (indexes: Result<seq<TableIndex>>)
    ensures indexes == ResolveIndexes(defs, columns)
  {
    hide ResolveParts;
    var done: seq<TableIndex> := [];
    for i := 0 to |defs|
      invariant ResolveIndexes(defs[..i], columns) == Success(done)
    {
      assert defs[..i + 1][..i] == defs[..i];
      if |done| >= MAX_TABLE_INDEX_COUNT {
        IndexesStopAt(defs, columns, i + 1);
        return Failure(TooManyIndexes);
      }
      if Clip(defs[i].typeName, MAX_INDEX_TYPE_NAME_SIZE) != "btree" {
        IndexesStopAt(defs, columns, i + 1);
        return Failure(UnknownIndexType);
      }
      var p := LoadParts(defs[i].parts, columns);
      if p.Failure? {
        IndexesStopAt(defs, columns, i + 1);
        return Failure(p.error);
      }
      done := done + [TableIndex(Clip(defs[i].name, MAX_INDEX_NAME_SIZE), defs[i].unique, BTREE_NODE_DEFAULT_SIZE, p.value.2, p.value.0, p.value.1)];
    }
    assert defs[..|defs|] == defs;
    return Success(done);
  }

  lemma {:induction false} IndexesStopAt(defs: seq<IndexDef>, columns: seq<Column>, i: nat)
    requires i <= |defs| && ResolveIndexes(defs[..i], columns).Failure?
    ensures ResolveIndexes(defs, columns) == ResolveIndexes(defs[..i], columns)
    decreases |defs| - i
  {
    hide ResolveIndex;
    if i < |defs| {
      assert defs[..i + 1][..i] == defs[..i];
      IndexesStopAt(defs, columns, i + 1);
    } else {
      assert defs[..i] == defs;
    }
  }

  /** schema_load_table, on the text of the file: it ends with a table or an error, whatever the text. */
  method LoadTable(text: string) returns (loaded: Result<Table>)
    ensures loaded == LoadText(text)
  {
    hide Tokens, ParseSchema, ResolveColumns, ResolveIndexes;
    var parser := new SchemaParser(text);
    var def := parser.ParseSchema();
    if parser.failed {
      return Failure(ParseFailed);
    }
    var columns := LoadColumns(def.columns);
    if columns.Failure? {
      return Failure(columns.error);
    }
    var indexes := LoadIndexes(def.indexes, columns.value);
    if indexes.Failure? {
      return Failure(indexes.error);
    }
    return Success(Table(columns.value, indexes.value));
  }
}
