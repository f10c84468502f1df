/** Saving and loading a schema: when the file gives the schema back. */
module SchemaRoundTrip {
  import opened Ordering
  import opened Values
  import opened KeyOrder
  import opened RowCodec
  import opened Lexer
  import opened Parser
  import opened Literals
  import opened SchemaText
  import opened SchemaTokens
  import opened SchemaParsing
  import opened SchemaLoad

  // ---------------------------------------------------------------- what can be saved

  /** A default as create-table makes it from a literal; only the sign of an int is left open. */
  ghost predicate DefaultFits(d: Option<DataValue>, rt: ResolvedType) {
    d.Some? ==>
      && WellTyped(d.value, rt)
      && match d.value
         case IntVal(n) => true
         case StrVal(s) => forall i :: 0 <= i < |s| ==> s[i] as int != '"' as int
         case BinVal(b) => b != []
  }

  /** A column as create-table makes it: an identifier of up to 31 characters, a type, a default that fits. */
  ghost predicate SavableColumn(c: Column) {
    && IsName(c.name) && |c.name| <= MAX_COLUMN_NAME_SIZE
    && ValidType(c.columnType) && DefaultFits(c.defaultValue, c.columnType)
  }

  /** A part refers to the column of its name, and takes no more of it than there is. */
  ghost predicate PartRefers(column: string, part: KeyPart, columns: seq<Column>) {
    && part.pos < |columns| && columns[part.pos].name == column
    && part.columnType == columns[part.pos].columnType.columnType
    && 1 <= part.len <= columns[part.pos].columnType.byteLen
  }

  ghost predicate SavableIndex(ix: TableIndex, columns: seq<Column>) {
    && IsName(ix.name) && |ix.name| <= MAX_INDEX_NAME_SIZE && (ix.unique || ix.name != "unique")
    && ix.nodeSize == BTREE_NODE_DEFAULT_SIZE && ix.keySize == KeySize(ix.parts)
    && |ix.columns| == |ix.parts| && 1 <= |ix.parts| <= MAX_INDEX_COLUMN_COUNT
    && forall i :: 0 <= i < |ix.parts| ==> PartRefers(ix.columns[i], ix.parts[i], columns)
  }

  ghost predicate DistinctNames(columns: seq<Column>) {
    forall i, j :: 0 <= i < j < |columns| ==> columns[i].name != columns[j].name
  }

  /** A table the engine can have: within its limits, column names distinct, indexes over its columns. */
  ghost predicate Savable(t: Table) {
    && |t.columns| <= MAX_COLUMNS_PER_TABLE && DistinctNames(t.columns)
    && (forall i :: 0 <= i < |t.columns| ==> SavableColumn(t.columns[i]))
    && |t.indexes| <= MAX_TABLE_INDEX_COUNT
    && (forall i :: 0 <= i < |t.indexes| ==> SavableIndex(t.indexes[i], t.columns))
  }

  /** What loading asks besides: lower-case names, and no negative default. */
  predicate LoadableColumn(c: Column) {
    && (forall i :: 0 <= i < |c.name| ==> IsColumnChar(c.name[i]))
    && (c.defaultValue.Some? && c.defaultValue.value.IntVal? ==> c.defaultValue.value.n >= 0)
  }

  predicate Loadable(t: Table) {
    forall i :: 0 <= i < |t.columns| ==> LoadableColumn(t.columns[i])
  }

  // ---------------------------------------------------------------- columns

  lemma ShortNumber(n: nat)
    requires n <= 255
    ensures ConvertInt(Digits(n)) == Converted(IntVal(n))
  {
    IntLiteralRoundTrip(n);
  }

  lemma TypeResolves(rt: ResolvedType)
    requires ValidType(rt)
    ensures TypeLength(LengthDef(rt)).Success?
    ensures ResolveType(Clip(TypeName(rt.columnType), MAX_TYPE_NAME_SIZE), TypeLength(LengthDef(rt)).value) == Success(rt)
  {
    hide Digits, ConvertInt;
    if !rt.columnType.IntType? { ShortNumber(rt.byteLen); }
  }

  lemma NoDotInDigits(n: nat)
    ensures '.' !in Digits(n)
  {
    DigitsAreDigits(n);
  }

  lemma DefaultResolves(d: Option<DataValue>, rt: ResolvedType)
    requires ValidType(rt) && DefaultFits(d, rt) && (d.Some? ==> Readable(d.value))
    ensures ResolveDefault(if d.None? then None else Some(RawOf(d.value))) == Success(d)
  {
    hide Digits, ConvertInt, HexText, ConvertHex, Chars, BytesOf;
    if d.Some? {
      match d.value
      case IntVal(n) =>
        NoDotInDigits(n);
        IntLiteralRoundTrip(n);
      case StrVal(s) =>
        CharsBack(s);
      case BinVal(b) =>
        HexLiteralRoundTrip(b);
    }
  }

  lemma ColumnResolves(c: Column)
    requires SavableColumn(c) && LoadableColumn(c)
    ensures ResolveColumn(ColumnDefOf(c)) == Success(c)
  {
    hide ResolveDefault, TypeLength, ResolveType, LengthDef, RawOf, TypeName, Clip;
    ClipShort(c.name, MAX_COLUMN_NAME_SIZE);
    TypeResolves(c.columnType);
    DefaultReadable(c);
    DefaultResolves(c.defaultValue, c.columnType);
  }

  lemma ClipShort(s: string, n: nat)
    requires |s| <= n
    ensures Clip(s, n) == s
  {
  }

  lemma DefaultReadable(c: Column)
    requires SavableColumn(c) && LoadableColumn(c)
    ensures c.defaultValue.Some? ==> Readable(c.defaultValue.value)
  {
  }

  lemma {:induction false} ColumnDefsSnoc(cs: seq<Column>)
    requires cs != []
    ensures ColumnDefsOf(cs) == ColumnDefsOf(cs[..|cs| - 1]) + [ColumnDefOf(cs[|cs| - 1])]
    ensures |ColumnDefsOf(cs)| == |cs|
    decreases |cs|
  {
    hide ColumnDefOf;
    if |cs| > 1 {
      ColumnDefsSnoc(cs[1..]);
      assert cs[1..][..|cs| - 2] == cs[..|cs| - 1][1..];
    } else {
      assert cs[1..] == [] && cs[..0] == [];
    }
  }

  lemma {:induction false} ColumnsResolve(cs: seq<Column>)
    requires |cs| <= MAX_COLUMNS_PER_TABLE
    requires forall i :: 0 <= i < |cs| ==> SavableColumn(cs[i]) && LoadableColumn(cs[i])
    ensures ResolveColumns(ColumnDefsOf(cs)) == Success(cs)
    decreases |cs|
  {
    hide ColumnDefOf, ResolveColumn, SavableColumn, LoadableColumn;
    if cs != [] {
      var n := |cs| - 1;
      ColumnDefsSnoc(cs);
      ColumnsResolve(cs[..n]);
      ColumnResolves(cs[n]);
      var defs := ColumnDefsOf(cs);
      assert defs[..|defs| - 1] == ColumnDefsOf(cs[..n]);
      assert cs == cs[..n] + [cs[n]];
    }
  }

  // ---------------------------------------------------------------- indexes

  lemma {:induction false} PosFound(columns: seq<Column>, k: nat)
    requires k < |columns| && DistinctNames(columns)
    ensures ColumnPos(columns, columns[k].name) == Some(k)
    decreases k
  {
    if k > 0 { PosFound(columns[1..], k - 1); }
  }

  lemma PartResolves(column: string, part: KeyPart, columns: seq<Column>)
    requires DistinctNames(columns) && PartRefers(column, part, columns)
    requires forall i :: 0 <= i < |columns| ==> SavableColumn(columns[i])
    ensures Clip(column, MAX_COLUMN_NAME_SIZE) == column
    ensures ResolvePart(PartDef(column, Some(Digits(part.len))), columns) == Success(part)
  {
    hide Digits, ConvertInt, ColumnPos, DistinctNames;
    assert SavableColumn(columns[part.pos]);
    PosFound(columns, part.pos);
    ShortNumber(part.len);
  }

  lemma {:induction false} PartDefsSnoc(names: seq<string>, parts: seq<KeyPart>)
    requires |names| == |parts| > 0
    ensures var n := |parts| - 1;
      PartDefsOf(names, parts) == PartDefsOf(names[..n], parts[..n]) + [PartDef(names[n], Some(Digits(parts[n].len)))]
    ensures |PartDefsOf(names, parts)| == |parts|
    decreases |parts|
  {
    hide Digits;
    if |parts| > 1 {
      PartDefsSnoc(names[1..], parts[1..]);
      assert names[1..][..|names| - 2] == names[..|names| - 1][1..] && parts[1..][..|parts| - 2] == parts[..|parts| - 1][1..];
    } else {
      assert parts[1..] == [] && parts[..0] == [];
    }
  }

  lemma OnePartMore(defs: seq<PartDef>, def: PartDef, columns: seq<Column>, names: seq<string>, parts: seq<KeyPart>, size: nat, part: KeyPart)
    requires ResolveParts(defs, columns) == Success((names, parts, size)) && |parts| < MAX_INDEX_COLUMN_COUNT
    requires ResolvePart(def, columns) == Success(part) && Clip(def.column, MAX_COLUMN_NAME_SIZE) == def.column
    ensures ResolveParts(defs + [def], columns) == Success((names + [def.column], parts + [part], size + part.len))
  {
    hide ResolvePart, Clip;
    assert (defs + [def])[..|defs|] == defs;
  }

  /** Names and parts that refer to columns, each part to the column of its name. */
  ghost predicate AllRefer(names: seq<string>, parts: seq<KeyPart>, columns: seq<Column>) {
    |names| == |parts| && forall i :: 0 <= i < |parts| ==> PartRefers(names[i], parts[i], columns)
  }

  lemma AllButLastRefer(names: seq<string>, parts: seq<KeyPart>, columns: seq<Column>)
    requires AllRefer(names, parts, columns) && parts != []
    ensures var n := |parts| - 1; AllRefer(names[..n], parts[..n], columns) && PartRefers(names[n], parts[n], columns)
  {
    hide PartRefers;
  }

  lemma AllButLast(names: seq<string>, parts: seq<KeyPart>)
    requires |names| == |parts| > 0
    ensures var n := |parts| - 1;
      && names == names[..n] + [names[n]] && parts == parts[..n] + [parts[n]]
      && KeySize(parts) == KeySize(parts[..n]) + parts[n].len
  {
    hide KeySize;
    SizeUpTo(parts, |parts| - 1);
    assert parts[..|parts|] == parts;
  }

  lemma {:induction false} PartsResolve(names: seq<string>, parts: seq<KeyPart>, columns: seq<Column>)
    requires AllRefer(names, parts, columns) && |names| == |parts| <= MAX_INDEX_COLUMN_COUNT && DistinctNames(columns)
    requires forall i :: 0 <= i < |columns| ==> SavableColumn(columns[i])
    ensures ResolveParts(PartDefsOf(names, parts), columns) == Success((names, parts, KeySize(parts)))
    decreases |parts|
  {
    hide ResolvePart, Digits, DistinctNames, SavableColumn, PartRefers, Clip, AllRefer;
    if parts != [] {
      hide ResolveParts, PartDefsOf, KeySize;
      var n := |parts| - 1;
      AllButLastRefer(names, parts, columns);
      AllButLast(names, parts);
      PartDefsSnoc(names, parts);
      PartsResolve(names[..n], parts[..n], columns);
      PartResolves(names[n], parts[n], columns);
      OnePartMore(PartDefsOf(names[..n], parts[..n]), PartDef(names[n], Some(Digits(parts[n].len))), columns,
                  names[..n], parts[..n], KeySize(parts[..n]), parts[n]);
    } else {
      assert names == [] && parts == [];
    }
  }

  lemma IndexResolves(ix: TableIndex, columns: seq<Column>)
    requires SavableIndex(ix, columns) && DistinctNames(columns)
    requires forall i :: 0 <= i < |columns| ==> SavableColumn(columns[i])
    ensures ResolveIndex(IndexDefOf(ix), columns) == Success(ix)
  {
    hide ResolveParts, PartDefsOf, DistinctNames, SavableColumn, PartRefers, KeySize;
    PartsResolve(ix.columns, ix.parts, columns);
  }

  lemma {:induction false} IndexDefsSnoc(ixs: seq<TableIndex>)
    requires PartsNamed(ixs) && ixs != []
    ensures IndexDefsOf(ixs) == IndexDefsOf(ixs[..|ixs| - 1]) + [IndexDefOf(ixs[|ixs| - 1])]
    ensures |IndexDefsOf(ixs)| == |ixs|
    decreases |ixs|
  {
    hide IndexDefOf;
    if |ixs| > 1 {
      IndexDefsSnoc(ixs[1..]);
      assert ixs[1..][..|ixs| - 2] == ixs[..|ixs| - 1][1..];
    } else {
      assert ixs[1..] == [] && ixs[..0] == [];
    }
  }

  lemma OneIndexMore(defs: seq<IndexDef>, def: IndexDef, columns: seq<Column>, ixs: seq<TableIndex>, ix: TableIndex)
    requires ResolveIndexes(defs, columns) == Success(ixs) && |ixs| < MAX_TABLE_INDEX_COUNT
    requires ResolveIndex(def, columns) == Success(ix)
    ensures ResolveIndexes(defs + [def], columns) == Success(ixs + [ix])
  {
    hide ResolveIndex;
    assert (defs + [def])[..|defs|] == defs;
  }

  lemma {:induction false} IndexesResolve(ixs: seq<TableIndex>, columns: seq<Column>)
    requires |ixs| <= MAX_TABLE_INDEX_COUNT && DistinctNames(columns)
    requires forall i :: 0 <= i < |columns| ==> SavableColumn(columns[i])
    requires forall i :: 0 <= i < |ixs| ==> SavableIndex(ixs[i], columns)
    ensures PartsNamed(ixs) && ResolveIndexes(IndexDefsOf(ixs), columns) == Success(ixs)
    decreases |ixs|
  {
    hide IndexDefOf, ResolveIndex, SavableIndex, SavableColumn, DistinctNames;
    AllPartsNamed(ixs, columns);
    if ixs != [] {
      hide ResolveIndexes, IndexDefsOf;
      var n := |ixs| - 1;
      IndexDefsSnoc(ixs);
      IndexesResolve(ixs[..n], columns);
      IndexResolves(ixs[n], columns);
      OneIndexMore(IndexDefsOf(ixs[..n]), IndexDefOf(ixs[n]), columns, ixs[..n], ixs[n]);
      assert ixs == ixs[..n] + [ixs[n]];
    }
  }

  lemma AllPartsNamed(ixs: seq<TableIndex>, columns: seq<Column>)
    requires forall i :: 0 <= i < |ixs| ==> SavableIndex(ixs[i], columns)
    ensures PartsNamed(ixs)
  {
  }

  // ---------------------------------------------------------------- the round trip

  lemma IndexesReadable(t: Table)
    requires Savable(t)
    ensures forall i :: 0 <= i < |t.indexes| ==> ReadableIndex(t.indexes[i]) && ParsableIndex(t.indexes[i])
  {
    forall i | 0 <= i < |t.indexes|
      ensures ReadableIndex(t.indexes[i]) && ParsableIndex(t.indexes[i])
    {
      var ix := t.indexes[i];
      assert SavableIndex(ix, t.columns);
      forall j | 0 <= j < |ix.columns|
        ensures IsName(ix.columns[j])
      {
        assert PartRefers(ix.columns[j], ix.parts[j], t.columns);
        assert SavableColumn(t.columns[ix.parts[j].pos]);
      }
    }
  }

  lemma ColumnsReadable(t: Table)
    requires Savable(t) && Loadable(t)
    ensures forall i :: 0 <= i < |t.columns| ==> ReadableColumn(t.columns[i]) && SavableColumn(t.columns[i]) && LoadableColumn(t.columns[i])
  {
    forall i | 0 <= i < |t.columns|
      ensures ReadableColumn(t.columns[i])
    {
      assert SavableColumn(t.columns[i]) && LoadableColumn(t.columns[i]);
      DefaultReadable(t.columns[i]);
    }
  }

  /** Through printer, lexer, parser and resolver, and back: the same columns, types, defaults and indexes. */
  lemma {:induction false} SchemaRoundTrips(t: Table)
    requires Savable(t) && Loadable(t)
    ensures PartsNamed(t.indexes) && LoadText(FileText(t)) == Success(t)
  {
    hide Tokens, FileText, ParseSchema, FileTokens, ColumnDefsOf, IndexDefsOf, SavableColumn, LoadableColumn, SavableIndex, ReadableColumn,
         ReadableIndex, ParsableIndex, ResolveColumns, ResolveIndexes;
    AllPartsNamed(t.indexes, t.columns);
    IndexesReadable(t);
    ColumnsReadable(t);
    LexFile(t);
    FileParses(t);
    FirstFileToken(t);
    ColumnsResolve(t.columns);
    IndexesResolve(t.indexes, t.columns);
  }

  lemma FirstFileToken(t: Table)
    requires PartsNamed(t.indexes)
    ensures FileTokens(t)[0].kind == Ident
  {
  }

  // ---------------------------------------------------------------- names that cannot be loaded

  lemma {:induction false} BadNameStops(cs: seq<Column>, i: nat)
    requires i < |cs| && SavableColumn(cs[i]) && !(forall k :: 0 <= k < |cs[i].name| ==> IsColumnChar(cs[i].name[k]))
    ensures ResolveColumns(ColumnDefsOf(cs)).Failure?
    decreases |cs|
  {
    ClipShort(cs[i].name, MAX_COLUMN_NAME_SIZE);
    hide ColumnDefsOf, SavableColumn, ResolveDefault, ResolveType, TypeLength;
    var n := |cs| - 1;
    ColumnDefsSnoc(cs);
    var defs := ColumnDefsOf(cs);
    assert defs[..|defs| - 1] == ColumnDefsOf(cs[..n]);
    if i < n { BadNameStops(cs[..n], i); }
  }

  // ---------------------------------------------------------------- defaults that cannot be read

  ghost predicate Negative(c: Column) {
    c.defaultValue.Some? && c.defaultValue.value.IntVal? && c.defaultValue.value.n < 0
  }

  lemma LexMinus(b: string)
    ensures Tokens("-" + b) == [Token(Invalid, "-")] + Tokens(b)
  {
    assert ("-" + b)[..1] == "-";
    FirstToken("-", b, Token(Invalid, "-"));
  }

  /** The tokens of a column with a negative default: the sign is no token of the language. */
  lemma LexNegative(c: Column, rest: string) returns (more: seq<Token>)
    requires IsName(c.name) && Negative(c)
    ensures Tokens(ColumnText(c) + rest)
         == [Token(Ident, c.name)] + (TypeTokens(c.columnType) + ([Token(Ident, "default")] + ([Token(Invalid, "-")] + more)))
  {
    hide Tokens, TypeText, TypeTokens, Digits;
    var digits := Digits(-c.defaultValue.value.n);
    var e := ",\n" + rest;
    var d := " default " + ("-" + (digits + e));
    more := Tokens(digits + e);
    ColumnPieces(c, rest);
    SchemaTokens.JoinText(" default ", "-" + digits, e);
    SchemaTokens.JoinText("-", digits, e);
    Blanks("    ", c.name + (" " + (TypeText(c.columnType) + d)));
    Word(c.name, " " + (TypeText(c.columnType) + d));
    Blanks(" ", TypeText(c.columnType) + d);
    LexType(c.columnType, d);
    DefaultWord("-" + (digits + e));
    LexMinus(digits + e);
  }

  lemma NegativeFails(name: string, rt: ResolvedType, more: seq<Token>)
    ensures var ts := [Token(Ident, name)] + (TypeTokens(rt) + ([Token(Ident, "default")] + ([Token(Invalid, "-")] + more)));
      Recognised(ts) && Going(At(ts)) && ParseColumnDef(At(ts)).0.failed
  {
    hide Expect, ParseLength, TypeTokens, TypeTail;
    var bad := [Token(Invalid, "-")] + more;
    var d := [Token(Ident, "default")] + bad;
    TypeParses(rt, d);
    var t := TypeTail(rt) + d;
    Expected(Token(Ident, name), [Token(Ident, TypeName(rt.columnType))] + t);
    Expected(Token(Ident, TypeName(rt.columnType)), t);
    assert d[1..] == bad;
  }

  lemma FailedColumnEnds(p: State)
    requires Going(p) && ParseColumnDef(p).0.failed
    ensures ParseColumnDefs(p).0.failed
  {
    hide ParseColumnDef;
    var next := Accept(ParseColumnDef(p).0, Comma).0;
    assert next.failed;
    assert ParseColumnDefs(next) == (next, []);
  }

  /** A negative default anywhere among the columns makes the column list fail. */
  lemma {:induction false} NegativeColumnsFail(cs: seq<Column>, rest: string, i: nat)
    requires i < |cs| && Negative(cs[i])
    requires forall k :: 0 <= k < |cs| ==> IsName(cs[k].name) && (Negative(cs[k]) || ReadableColumn(cs[k]))
    ensures Recognised(Tokens(ColumnsText(cs) + rest)) && ParseColumnDefs(At(Tokens(ColumnsText(cs) + rest))).0.failed
    decreases |cs|
  {
    hide Tokens, ColumnText, ParseColumnDef, ColumnTokens, ParseColumnDefs, ReadableColumn, ColumnsText;
    ColumnsTextCons(cs);
    SchemaTokens.JoinText(ColumnText(cs[0]), ColumnsText(cs[1..]), rest);
    var after := ColumnsText(cs[1..]) + rest;
    if Negative(cs[0]) {
      var more := LexNegative(cs[0], after);
      NegativeFails(cs[0].name, cs[0].columnType, more);
      FailedColumnEnds(At(Tokens(ColumnText(cs[0]) + after)));
    } else {
      NegativeColumnsFail(cs[1..], rest, i - 1);
      ReadableParts(cs[0]);
      LexColumn(cs[0], after);
      ColumnParses(cs[0], Tokens(after));
      OneColumnOn(At(ColumnTokens(cs[0]) + Tokens(after)));
    }
  }

  lemma ReadableParts(c: Column)
    requires ReadableColumn(c)
    ensures IsName(c.name) && (c.defaultValue.Some? ==> Readable(c.defaultValue.value))
  {
  }

  lemma OneColumnOn(p: State)
    requires Going(p)
    ensures var next := Accept(ParseColumnDef(p).0, Comma).0;
      |next.rest| < |p.rest| ==> ParseColumnDefs(p).0 == ParseColumnDefs(next).0
  {
    hide ParseColumnDef, Accept;
  }

  /** A failure among the columns is a failure of the file. */
  lemma FailureStays(p: State)
    requires var p1 := Expect(ExpectKeyword(p, "table"), LeftParen);
      ParseColumnDefs(Expect(ExpectKeyword(p1, "columns"), LeftParen)).0.failed
    ensures ParseSchema(p).0.failed
  {
    hide ParseColumnDefs, ParseIndexDef;
  }

  lemma {:induction false} NegativeDefaultFails(t: Table, i: nat)
    requires Savable(t) && i < |t.columns| && Negative(t.columns[i])
    ensures PartsNamed(t.indexes) && LoadText(FileText(t)).Failure?
  {
    hide Tokens, ColumnsText, ParseColumnDefs, ParseSchema, IndexesText, Expect, ExpectKeyword;
    AllPartsNamed(t.indexes, t.columns);
    ReadableOrNegative(t);
    FilePieces(t);
    var rest := "  ),\n" + ("  indexes (\n" + (IndexesText(t.indexes) + ("  ),\n" + ")\n")));
    FileHead(ColumnsText(t.columns) + rest);
    NegativeColumnsFail(t.columns, rest, i);
    var cs := Tokens(ColumnsText(t.columns) + rest);
    var ts := Tokens(FileText(t));
    assert ts == [Token(Ident, "table"), Open] + ([Token(Ident, "columns"), Open] + cs);
    Heading("table", [Token(Ident, "columns"), Open] + cs);
    Heading("columns", cs);
    FailureStays(At(ts));
  }

  lemma ReadableOrNegative(t: Table)
    requires Savable(t)
    ensures forall k :: 0 <= k < |t.columns| ==> IsName(t.columns[k].name) && (Negative(t.columns[k]) || ReadableColumn(t.columns[k]))
  {
    forall k | 0 <= k < |t.columns|
      ensures IsName(t.columns[k].name) && (Negative(t.columns[k]) || ReadableColumn(t.columns[k]))
    {
      assert SavableColumn(t.columns[k]);
    }
  }

  /** Names the parser takes but the loader does not: the file parses, and is refused. */
  lemma {:induction false} BadNameFails(t: Table, i: nat)
    requires Savable(t) && i < |t.columns| && !(forall k :: 0 <= k < |t.columns[i].name| ==> IsColumnChar(t.columns[i].name[k]))
    requires forall k :: 0 <= k < |t.columns| ==> !Negative(t.columns[k])
    ensures PartsNamed(t.indexes) && LoadText(FileText(t)).Failure?
  {
    hide Tokens, FileText, ParseSchema, FileTokens, ColumnDefsOf, IndexDefsOf, SavableIndex, ReadableColumn,
         ReadableIndex, ParsableIndex, ResolveColumns, ResolveIndexes, Negative;
    AllPartsNamed(t.indexes, t.columns);
    IndexesReadable(t);
    ReadableOrNegative(t);
    LexFile(t);
    FileParses(t);
    FirstFileToken(t);
    assert SavableColumn(t.columns[i]);
    BadNameStops(t.columns, i);
  }

  /**
   * Exactly when a saved schema comes back: every column name is of the letters a to z and underscores, and
   * no default is negative.
   */
  lemma {:induction false} LoadsBackIffLoadable(t: Table)
    requires Savable(t)
    ensures PartsNamed(t.indexes)
    ensures LoadText(FileText(t)) == Success(t) <==> Loadable(t)
  {
    hide LoadText, FileText, Savable;
    if Loadable(t) {
      SchemaRoundTrips(t);
    } else {
      var i :| 0 <= i < |t.columns| && !LoadableColumn(t.columns[i]);
      if k :| 0 <= k < |t.columns| && Negative(t.columns[k]) {
        NegativeDefaultFails(t, k);
      } else {
        BadNameFails(t, i);
      }
    }
  }

  /** What save and load of one table amount to. */
  method SaveAndLoad(t: Table) returns (loaded: Result<Table>)
    requires Savable(t)
    ensures loaded == Success(t) <==> Loadable(t)
  {
    LoadsBackIffLoadable(t);
    hide LoadText, FileText, Savable, Loadable;
    var text := SaveTable(t);
    loaded := LoadTable(text);
  }
}
