/** Schemas and the text they are saved as. */
module SchemaText {
  import opened Ordering
  import opened Values
  import opened KeyOrder
  import opened RowCodec
  import opened Lexer
  import opened Literals

  const MAX_COLUMN_NAME_SIZE := 31
  const MAX_INDEX_NAME_SIZE := 31
  const MAX_TYPE_NAME_SIZE := 15
  const MAX_INDEX_TYPE_NAME_SIZE := 16
  const MAX_TABLE_INDEX_COUNT := 8
  const MAX_INDEX_COLUMN_COUNT := 4
  const BTREE_NODE_DEFAULT_SIZE := 4096

  datatype Column = Column(name: string, columnType: ResolvedType, defaultValue: Option<DataValue>)

  datatype TableIndex = TableIndex(name: string, unique: bool, nodeSize: nat, keySize: nat, columns: seq<string>, parts: seq<KeyPart>)

  datatype Table = Table(columns: seq<Column>, indexes: seq<TableIndex>)

  // ---------------------------------------------------------------- the text

  function TypeName(t: ColumnType): string {
    match t
    case IntType => "int"
    case VarcharType => "varchar"
    case CharType => "char"
    case BinaryType => "binary"
  }

  /** resolved_type_name. */
  function TypeText(rt: ResolvedType): string {
    if rt.columnType.IntType? then "int" else TypeName(rt.columnType) + ("(" + (Digits(rt.byteLen) + ")"))
  }

  function Literal(v: DataValue): string {
    match v
    case IntVal(n) => FormatInt(n)
    case StrVal(s) => FormatString(s)
    case BinVal(b) => "0x" + HexText(b)
  }

  function DefaultText(d: Option<DataValue>): string {
    if d.None? then "" else " default " + Literal(d.value)
  }

  function ColumnText(c: Column): string {
    "    " + c.name + " " + TypeText(c.columnType) + DefaultText(c.defaultValue) + ",\n"
  }

  function ColumnsText(cs: seq<Column>): string {
    if cs == [] then "" else ColumnsText(cs[..|cs| - 1]) + ColumnText(cs[|cs| - 1])
  }

  function PartText(column: string, len: nat): string {
    column + "(" + Digits(len) + ")"
  }

  function PartsText(columns: seq<string>, parts: seq<KeyPart>): string
    requires |columns| == |parts|
  {
    if parts == [] then ""
    else if |parts| == 1 then PartText(columns[0], parts[0].len)
    else PartText(columns[0], parts[0].len) + ", " + PartsText(columns[1..], parts[1..])
  }

  function IndexText(ix: TableIndex): string
    requires |ix.columns| == |ix.parts|
  {
    "    " + "btree" + (if ix.unique then " unique " else " ") + ix.name + " (" + PartsText(ix.columns, ix.parts) + "),\n"
  }

  ghost predicate PartsNamed(ixs: seq<TableIndex>) {
    forall i :: 0 <= i < |ixs| ==> |ixs[i].columns| == |ixs[i].parts|
  }

  function IndexesText(ixs: seq<TableIndex>): string
    requires PartsNamed(ixs)
  {
    if ixs == [] then "" else IndexesText(ixs[..|ixs| - 1]) + IndexText(ixs[|ixs| - 1])
  }

  function FileText(t: Table): string
    requires PartsNamed(t.indexes)
  {
    "table (\n" + "  columns (\n" + ColumnsText(t.columns) + "  ),\n" + "  indexes (\n" + IndexesText(t.indexes) + "  ),\n" + ")\n"
  }

  // ---------------------------------------------------------------- the buffers literals are printed into

  /** max_literal_size of each column type, the closing zero included. */
  function MaxLiteralSize(rt: ResolvedType): nat {
    match rt.columnType
    case IntType => 12
    case VarcharType => rt.byteLen + 3
    case CharType => rt.byteLen + 3
    case BinaryType => rt.byteLen * 2 + 3
  }

  /** No literal of a column is cut off. */
  lemma LiteralFits(v: DataValue, rt: ResolvedType)
    requires WellTyped(v, rt)
    ensures |Literal(v)| + 1 <= MaxLiteralSize(rt)
  {
    hide Digits, HexText;
    match v
    case IntVal(n) =>
      assert Power10(10) == 10 * (10 * (10 * (10 * (10 * Power10(5))))) && Power10(5) == 100000;
      DigitsLength(if n < 0 then -n else n, 10);
    case StrVal(s) =>
    case BinVal(b) => HexTextBack(b);
  }

  /** Nor is any buffer too large: some literal fills it. */
  lemma BuffersAreFilled(rt: ResolvedType) returns (v: DataValue)
    requires ValidType(rt)
    ensures WellTyped(v, rt) && |Literal(v)| + 1 == MaxLiteralSize(rt)
  {
    match rt.columnType
    case IntType =>
      v := IntVal(-2147483648);
      LargestDigits();
    case VarcharType => v := StrVal(seq(rt.byteLen, _ => 97));
    case CharType => v := StrVal(seq(rt.byteLen, _ => 97));
    case BinaryType =>
      v := BinVal(seq(rt.byteLen, _ => 0));
      HexTextBack(v.b);
  }

  lemma LargestDigits()
    ensures |Digits(2147483648)| == 10
  {
    hide Digits;
    OneDigit(2);
    OneMore(2, 1); OneMore(21, 4); OneMore(214, 7); OneMore(2147, 4); OneMore(21474, 8);
    OneMore(214748, 3); OneMore(2147483, 6); OneMore(21474836, 4); OneMore(214748364, 8);
  }

  lemma OneDigit(d: nat)
    requires d < 10
    ensures |Digits(d)| == 1
  {
  }

  lemma OneMore(n: nat, d: nat)
    requires n > 0 && d < 10
    ensures |Digits(10 * n + d)| == |Digits(n)| + 1
  {
  }

  // ---------------------------------------------------------------- printing it

  class StrBuf {
    var data: string

    constructor ()
      ensures data == ""
    {
      data := "";
    }

    /** strbuf_append. `line` is what has been appended since `before`. */
    method Append(s: string, ghost before: string, ghost line: string)
      requires data == before + line
      modifies this
      ensures data == before + (line + s)
    {
      data := data + s;
    }
  }

  /** format_literal of each column type. */
  method FormatLiteral(v: DataValue) returns (s: string)
    ensures s == Literal(v)
  {
    match v
    case IntVal(n) => return FormatInt(n);
    case StrVal(x) => return FormatString(x);
    case BinVal(b) => s := FormatBinary(b);
  }

  method PrintColumn(c: Column, buf: StrBuf)
    modifies buf
    ensures buf.data == old(buf.data) + ColumnText(c)
  {
    hide Literal, TypeText;
    ghost var before, line := buf.data, "";
    buf.Append("    ", before, "");
    line := "" + "    ";
    buf.Append(c.name, before, line);
    line := line + c.name;
    buf.Append(" ", before, line);
    line := line + " ";
    buf.Append(TypeText(c.columnType), before, line);
    line := line + TypeText(c.columnType);
    if c.defaultValue.Some? {
      buf.Append(" default ", before, line);
      var literal := FormatLiteral(c.defaultValue.value);
      buf.Append(literal, before, line + " default ");
      Join(line, " default ", literal);
    } else {
      assert line + "" == line;
    }
    line := line + DefaultText(c.defaultValue);
    buf.Append(",\n", before, line);
    assert "" + "    " == "    ";
  }

  lemma Join(a: string, b: string, c: string)
    ensures (a + b) + c == a + (b + c)
  {
  }

  /** schema_serialize_columns. */
  method SerializeColumns(cs: seq<Column>, buf: StrBuf)
    modifies buf
    ensures buf.data == old(buf.data) + ColumnsText(cs)
  {
    hide ColumnsText, ColumnText;
    NoColumns(cs);
    for i := 0 to |cs|
      invariant buf.data == old(buf.data) + ColumnsText(cs[..i])
    {
      PrintColumn(cs[i], buf);
      ColumnsUpTo(cs, i);
      Join(old(buf.data), ColumnsText(cs[..i]), ColumnText(cs[i]));
    }
    assert cs[..|cs|] == cs;
  }

  lemma NoColumns(cs: seq<Column>)
    ensures ColumnsText(cs[..0]) == ""
  {
  }

  lemma ColumnsUpTo(cs: seq<Column>, i: nat)
    requires i < |cs|
    ensures ColumnsText(cs[..i + 1]) == ColumnsText(cs[..i]) + ColumnText(cs[i])
  {
    assert cs[..i + 1][..i] == cs[..i];
    hide ColumnText;
  }

  method PrintIndex(ix: TableIndex, buf: StrBuf)
    requires |ix.columns| == |ix.parts|
    modifies buf
    ensures buf.data == old(buf.data) + IndexText(ix)
  {
    hide PartsText;
    ghost var before, line := buf.data, "";
    buf.Append("    ", before, "");
    line := "" + "    ";
    buf.Append("btree", before, line);
    line := line + "btree";
    buf.Append(if ix.unique then " unique " else " ", before, line);
    line := line + (if ix.unique then " unique " else " ");
    buf.Append(ix.name, before, line);
    line := line + ix.name;
    buf.Append(" (", before, line);
    line := line + " (";
    SerializeParts(ix.columns, ix.parts, buf);
    Join(before, line, PartsText(ix.columns, ix.parts));
    line := line + PartsText(ix.columns, ix.parts);
    buf.Append("),\n", before, line);
    assert "" + "    " == "    ";
  }

  /** index_serialize. */
  method SerializeIndexes(ixs: seq<TableIndex>, buf: StrBuf)
    requires PartsNamed(ixs)
    modifies buf
    ensures buf.data == old(buf.data) + IndexesText(ixs)
  {
    hide IndexesText, IndexText;
    NoIndexes(ixs);
    for i := 0 to |ixs|
      invariant buf.data == old(buf.data) + IndexesText(ixs[..i])
    {
      PrintIndex(ixs[i], buf);
      IndexesUpTo(ixs, i);
      Join(old(buf.data), IndexesText(ixs[..i]), IndexText(ixs[i]));
    }
    assert ixs[..|ixs|] == ixs;
  }

  lemma NoIndexes(ixs: seq<TableIndex>)
    requires PartsNamed(ixs)
    ensures IndexesText(ixs[..0]) == ""
  {
  }

  lemma IndexesUpTo(ixs: seq<TableIndex>, i: nat)
    requires PartsNamed(ixs) && i < |ixs|
    ensures IndexesText(ixs[..i + 1]) == IndexesText(ixs[..i]) + IndexText(ixs[i])
  {
    assert ixs[..i + 1][..i] == ixs[..i];
    hide IndexText;
  }

  /** Its inner loop: a comma before every part but the first. */
  method SerializeParts(columns: seq<string>, parts: seq<KeyPart>, buf: StrBuf)
    requires |columns| == |parts|
    modifies buf
    ensures buf.data == old(buf.data) + PartsText(columns, parts)
  {
    hide Digits, PartText, PartsText, MoreParts;
    ghost var before, line := buf.data, "";
    AllParts(columns, parts);
    for c := 0 to |parts|
      invariant buf.data == before + line
      invariant line + MoreParts(columns, parts, c) == PartsText(columns, parts)
    {
      PartsFrom(columns, parts, c);
      ghost var was := line;
      if c > 0 {
        buf.Append(", ", before, line);
        line := line + ", ";
      } else {
        assert line + "" == line;
      }
      buf.Append(PartText(columns[c], parts[c].len), before, line);
      line := line + PartText(columns[c], parts[c].len);
      Shift(was, if c > 0 then ", " else "", PartText(columns[c], parts[c].len), MoreParts(columns, parts, c + 1));
    }
    assert line + "" == line;
  }

  lemma Shift(a: string, b: string, c: string, d: string)
    ensures a + (b + c + d) == ((a + b) + c) + d
  {
  }

  lemma AllParts(columns: seq<string>, parts: seq<KeyPart>)
    requires |columns| == |parts|
    ensures "" + MoreParts(columns, parts, 0) == PartsText(columns, parts)
    ensures MoreParts(columns, parts, |parts|) == ""
  {
    hide PartText;
    assert columns[0..] == columns && parts[0..] == parts;
    assert "" + PartsText(columns, parts) == PartsText(columns, parts);
  }

  /** What is still to be printed from part `c` on. */
  ghost function MoreParts(columns: seq<string>, parts: seq<KeyPart>, c: nat): string
    requires |columns| == |parts| && c <= |parts|
  {
    if c == |parts| then "" else (if c > 0 then ", " else "") + PartsText(columns[c..], parts[c..])
  }

  lemma PartsFrom(columns: seq<string>, parts: seq<KeyPart>, c: nat)
    requires |columns| == |parts| && c < |parts|
    ensures MoreParts(columns, parts, c) == (if c > 0 then ", " else "") + PartText(columns[c], parts[c].len) + MoreParts(columns, parts, c + 1)
  {
    hide PartText;
    assert columns[c..][1..] == columns[c + 1..] && parts[c..][1..] == parts[c + 1..];
  }

  /** schema_save_table: the whole file. */
  method SaveTable(t: Table) returns (text: string)
    requires PartsNamed(t.indexes)
    ensures text == FileText(t)
  {
    hide ColumnsText, IndexesText;
    var buf := new StrBuf();
    ghost var line := "";
    assert "" + "" == "" && "" + "table (\n" == "table (\n";
    buf.Append("table (\n", "", "");
    line := "table (\n";
    buf.Append("  columns (\n", "", line);
    line := line + "  columns (\n";
    SerializeColumns(t.columns, buf);
    Join("", line, ColumnsText(t.columns));
    line := line + ColumnsText(t.columns);
    buf.Append("  ),\n", "", line);
    line := line + "  ),\n";
    buf.Append("  indexes (\n", "", line);
    line := line + "  indexes (\n";
    SerializeIndexes(t.indexes, buf);
    Join("", line, IndexesText(t.indexes));
    line := line + IndexesText(t.indexes);
    buf.Append("  ),\n", "", line);
    line := line + "  ),\n";
    buf.Append(")\n", "", line);
    assert "" + (line + ")\n") == line + ")\n";
    return buf.data;
  }
}
