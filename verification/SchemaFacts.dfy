/** The limits and the literals of schema files in plain numbers and characters. */
module SchemaFacts {
  import opened Ordering
  import opened Values
  import opened KeyOrder
  import opened Lexer
  import opened Parser
  import opened Literals
  import opened SchemaText
  import opened SchemaLoad

  // ---------------------------------------------------------------- numbers

  /** Decimal digits, the last one last. */
  lemma DigitsWritten(n: nat, d: nat)
    requires d < 10
    ensures Digits(d) == ["0123456789"[d]]
    ensures n > 0 ==> Digits(10 * n + d) == Digits(n) + ["0123456789"[d]]
  {
    assert forall k :: 0 <= k < 10 ==> "0123456789"[k] as int == k + '0' as int;
  }

  lemma MinusWritten(n: int)
    requires n > 0
    ensures FormatInt(-n) == "-" + Digits(n) && FormatInt(n) == Digits(n)
  {
  }

  lemma {:induction false} FirstDigit(n: nat)
    requires n > 0
    ensures Digits(n)[0] != '0'
    decreases n
  {
    if n >= 10 { FirstDigit(n / 10); }
  }

  /** A run of digits that does not start with a zero stands for a number of as many digits. */
  lemma {:induction false} DecimalAtLeast(s: string)
    requires s != "" && s[0] != '0' && forall i :: 0 <= i < |s| ==> IsDigit(s[i])
    ensures Decimal(s) >= Power10(|s| - 1)
    decreases |s|
  {
    if |s| > 1 {
      DecimalAtLeast(s[..|s| - 1]);
    } else {
      assert s[..0] == "";
    }
  }

  /** An int literal is read exactly up to 2147483647. */
  lemma {:induction false} IntLiteralRange(n: nat)
    ensures n <= 2147483647 ==> ConvertInt(Digits(n)) == Converted(IntVal(n))
    ensures n > 2147483647 ==> ConvertInt(Digits(n)) == Refused(OutOfRange)
  {
    hide Digits, Decimal;
    if n <= 2147483647 {
      IntLiteralRoundTrip(n);
    } else {
      var s := Digits(n);
      DigitsAreDigits(n);
      FirstDigit(n);
      var buf := if |s| > 15 then s[..15] else s;
      SpanAll(buf, IsDigit);
      assert buf[..|buf|] == buf;
      if |s| > 15 {
        DecimalAtLeast(buf);
        assert Power10(14) == 100000 * Power10(9) && Power10(9) == 100000 * Power10(4) && Power10(4) == 10000;
      }
    }
  }

  // ---------------------------------------------------------------- strings and binaries

  /** Each byte is two lower-case hex digits. */
  lemma HexWritten(b: seq<byte>, x: byte)
    ensures HexText([]) == ""
    ensures HexText(b + [x]) == HexText(b) + ["0123456789abcdef"[x as int / 16], "0123456789abcdef"[x as int % 16]]
  {
    assert (b + [x])[..|b|] == b;
    forall d: nat | d < 16 ensures HexChar(d) == "0123456789abcdef"[d] { SixteenDigits(d); }
  }

  lemma SixteenDigits(d: nat)
    requires d < 16
    ensures HexChar(d) == "0123456789abcdef"[d]
  {
    var all := "0123456789abcdef";
    assert all[0] == '0' && all[1] == '1' && all[2] == '2' && all[3] == '3' && all[4] == '4' && all[5] == '5' && all[6] == '6' && all[7] == '7';
    assert all[8] == '8' && all[9] == '9' && all[10] == 'a' && all[11] == 'b' && all[12] == 'c' && all[13] == 'd' && all[14] == 'e' && all[15] == 'f';
  }

  /** A hex literal of odd length is read as if a zero stood in front of it. */
  lemma {:induction false} OddHexLiteral(text: string)
    requires |text| % 2 == 1 && |text| < 256
    ensures ConvertHex(text) == ConvertHex("0" + text)
  {
    var t := "0" + text;
    assert forall i :: 0 <= i < |text| ==> t[i + 1] == text[i];
    if forall i :: 0 <= i < |text| ==> IsHexDigit(text[i]) {
      assert forall i :: 0 <= i < |t| ==> IsHexDigit(t[i]);
      OddPairs(text);
    } else {
      var i :| 0 <= i < |text| && !IsHexDigit(text[i]);
      assert !IsHexDigit(t[i + 1]);
    }
  }

  lemma {:induction false} OddPairs(text: string)
    requires |text| % 2 == 1
    ensures HexPairs("0" + text) == [HexValue(text[0]) as byte] + HexPairs(text[1..])
    decreases |text|
  {
    var t, n := "0" + text, |text|;
    if n == 1 {
      assert t[..0] == "" && t[0] == '0' && t[1] == text[0] && text[1..] == "";
    } else {
      OddPairs(text[..n - 2]);
      assert t[..n - 1] == "0" + text[..n - 2] && text[1..][..n - 3] == text[..n - 2][1..];
      assert t[n - 1] == text[n - 2] && t[n] == text[n - 1];
    }
  }

  /** Two digits make a byte, the first one the higher half; a single one is a byte of its own. */
  lemma {:induction false} HexDigitsRead(v: nat, w: nat)
    requires v < 16 && w < 16
    ensures var c, d := "0123456789abcdef"[v], "0123456789abcdef"[w];
      && ConvertHex([c, d]) == Converted(BinVal([(16 * v + w) as byte]))
      && ConvertHex([d]) == Converted(BinVal([w as byte]))
  {
    hide HexPairs, HexChar, HexValue, IsHexDigit;
    SixteenDigits(v);
    SixteenDigits(w);
    HexCharBack(v);
    HexCharBack(w);
    var c, d := HexChar(v), HexChar(w);
    NoPairs("", 0);
    assert ""[0..0] == "" && HexPairs("") == [];
    HexPairsStep("", c, d);
    var t, u := [c, d], [d];
    assert "" + t == t && u[1..] == "";
    assert HexPairs(t) == [PairByte(c, d)] && PairByte(c, d) == (16 * v + w) as byte;
    assert forall i :: 0 <= i < |t| ==> IsHexDigit(t[i]);
    assert forall i :: 0 <= i < |u| ==> IsHexDigit(u[i]);
    assert |u| % 2 == 1 && [HexValue(u[0]) as byte] + HexPairs(u[1..]) == [w as byte];
  }

  /** Capital digits are refused. */
  lemma CapitalRefused(text: string, i: nat)
    requires i < |text| <= 256 && 'A' <= text[i] <= 'F'
    ensures ConvertHex(text) == Refused(BadHex)
  {
    assert !IsHexDigit(text[i]);
  }

  /** The longest literals: 255 characters of a string, 256 digits of a binary. */
  lemma LiteralLimits(text: string)
    ensures |text| > 255 <==> ConvertString(text) == Refused(TooLong)
    ensures |text| > 256 <==> ConvertHex(text) == Refused(TooLong)
    ensures |text| <= 255 ==> ConvertString(text).Converted?
  {
  }

  /** A string literal is taken character by character. */
  lemma StringTaken(text: string)
    requires |text| <= 255 && forall i :: 0 <= i < |text| ==> text[i] as int < 0x100
    ensures var c := ConvertString(text);
      c.Converted? && c.value.StrVal? && |c.value.s| == |text| && forall i :: 0 <= i < |text| ==> c.value.s[i] as int == text[i] as int
  {
  }

  // ---------------------------------------------------------------- types

  /** The four types by name, and the lengths they take. */
  lemma TypesResolve(name: string, len: nat)
    ensures ResolveType("int", None) == Success(ResolvedType(IntType, 4)) && ResolveType("int", Some(len)).Failure?
    ensures ResolveType("varchar", Some(len)) == if 1 <= len <= 255 then Success(ResolvedType(VarcharType, len)) else Failure(TypeUnresolved)
    ensures ResolveType("char", Some(len)) == if 1 <= len <= 128 then Success(ResolvedType(CharType, len)) else Failure(TypeUnresolved)
    ensures ResolveType("binary", Some(len)) == if 1 <= len <= 128 then Success(ResolvedType(BinaryType, len)) else Failure(TypeUnresolved)
    ensures ResolveType("varchar", None).Failure? && ResolveType("char", None).Failure? && ResolveType("binary", None).Failure?
    ensures UnknownType(name) ==> ResolveType(name, None).Failure? && ResolveType(name, Some(len)).Failure?
  {
    hide TypeName;
  }

  /** The types a table can have are those that resolve from their names and lengths. */
  lemma TypesAreResolved(rt: ResolvedType)
    ensures ValidType(rt) <==> ResolveType(TypeName(rt.columnType), if rt.columnType.IntType? then None else Some(rt.byteLen)) == Success(rt)
  {
    TypesResolve(TypeName(rt.columnType), rt.byteLen);
  }

  /** The length of a key part: the whole column if none is given, and never more than the column. */
  lemma PartLengths(k: nat, byteLen: nat)
    requires byteLen <= 255
    ensures PartLength(None, byteLen) == Success(byteLen)
    ensures PartLength(Some(Digits(k)), byteLen) == if 1 <= k <= byteLen then Success(k) else Failure(BadPartLength)
  {
    IntLiteralRange(k);
  }

  /** The length of a column type must be a number up to 255. */
  lemma TypeLengths(k: nat)
    ensures TypeLength(None) == Success(None)
    ensures TypeLength(Some(Digits(k))) == if k <= 255 then Success(Some(k)) else Failure(BadTypeLength)
  {
    IntLiteralRange(k);
  }

  // ---------------------------------------------------------------- names and counts

  /** A column name is looked at up to its 31st character, all of a to z and underscores; there must be one. */
  lemma ColumnNames(def: ColumnDef)
    ensures var name := if |def.column| > 31 then def.column[..31] else def.column;
      && (ResolveColumn(def).Success? ==> ResolveColumn(def).value.name == name)
      && (ResolveColumn(def) == Failure(BadColumnName) <==>
            name == "" || exists i :: 0 <= i < |name| && !('a' <= name[i] <= 'z' || name[i] == '_'))
  {
    var name := if |def.column| > 31 then def.column[..31] else def.column;
    assert name == Clip(def.column, MAX_COLUMN_NAME_SIZE);
    if !ColumnNameOk(name) && name != "" {
      var i :| 0 <= i < |name| && !IsColumnChar(name[i]);
      assert !('a' <= name[i] <= 'z' || name[i] == '_');
    }
  }

  /** More than 16 columns are refused. */
  lemma {:induction false} ColumnCount(defs: seq<ColumnDef>)
    ensures ResolveColumns(defs).Success? ==> |ResolveColumns(defs).value| == |defs| <= 16
    decreases |defs|
  {
    hide ResolveColumn;
    if defs != [] { ColumnCount(defs[..|defs| - 1]); }
  }

  /** More than four parts are refused; the key size is the sum of their lengths. */
  lemma {:induction false} PartCount(defs: seq<PartDef>, columns: seq<Column>)
    ensures ResolveParts(defs, columns).Success? ==>
      var p := ResolveParts(defs, columns).value; |p.1| == |p.0| == |defs| <= 4 && p.2 == KeySize(p.1)
    decreases |defs|
  {
    hide ResolvePart;
    if defs != [] {
      PartCount(defs[..|defs| - 1], columns);
      if ResolveParts(defs, columns).Success? {
        var p, q := ResolveParts(defs[..|defs| - 1], columns).value.1, ResolveParts(defs, columns).value.1;
        SizeSnoc(p, q[|q| - 1]);
      }
    }
  }

  lemma {:induction false} SizeSnoc(parts: seq<KeyPart>, p: KeyPart)
    ensures KeySize(parts + [p]) == KeySize(parts) + p.len
    decreases |parts|
  {
    if parts != [] {
      SizeSnoc(parts[1..], p);
      assert (parts + [p])[1..] == parts[1..] + [p];
    } else {
      assert ([] + [p])[1..] == [];
    }
  }

  /** More than eight indexes are refused. */
  lemma {:induction false} IndexCount(defs: seq<IndexDef>, columns: seq<Column>)
    ensures ResolveIndexes(defs, columns).Success? ==> |ResolveIndexes(defs, columns).value| == |defs| <= 8
    decreases |defs|
  {
    hide ResolveIndex;
    if defs != [] { IndexCount(defs[..|defs| - 1], columns); }
  }

  /** An index is a B-tree of 4096-byte nodes; its name is looked at up to the 31st character. */
  lemma IndexResolved(def: IndexDef, columns: seq<Column>)
    ensures def.typeName != "btree" ==> ResolveIndex(def, columns).Failure?
    ensures ResolveIndex(def, columns).Success? ==>
      var ix := ResolveIndex(def, columns).value;
      && ix.name == (if |def.name| > 31 then def.name[..31] else def.name)
      && ix.unique == def.unique && ix.nodeSize == 4096
  {
    hide ResolveParts;
    if |def.typeName| > 16 { assert |def.typeName[..16]| == 16; }
  }

  // ---------------------------------------------------------------- which error is reported

  /** Of several faults of a column the name's comes first, then the length's, the type's and the default's. */
  lemma ColumnErrors(def: ColumnDef, k: nat)
    requires ResolveColumn(def) != Failure(BadColumnName)
    ensures def.columnType.len == Some(Digits(k)) && k > 255 ==> ResolveColumn(def) == Failure(BadTypeLength)
    ensures def.columnType.len.None? && UnknownType(def.columnType.name) ==> ResolveColumn(def) == Failure(TypeUnresolved)
    ensures def.columnType == TypeDef("int", None) && def.defaultValue == Some(NoLiteral) ==> ResolveColumn(def) == Failure(BadDefault)
  {
    TypeLengths(k);
    var name := def.columnType.name;
    TypesResolve(Clip(name, MAX_TYPE_NAME_SIZE), k);
    NotCutOff(name, "int");
    NotCutOff(name, "varchar");
    NotCutOff(name, "char");
    NotCutOff(name, "binary");
    hide ResolveType, TypeLength, ColumnNameOk, Digits;
  }

  ghost predicate UnknownType(name: string) {
    name != "int" && name != "varchar" && name != "char" && name != "binary"
  }

  /** A name cut off is none of the four types. */
  lemma NotCutOff(name: string, t: string)
    requires |t| < 15
    ensures Clip(name, MAX_TYPE_NAME_SIZE) == t ==> name == t
  {
  }

  /** The first column that does not resolve is the one reported, whatever follows, */
  lemma FirstColumnError(before: seq<ColumnDef>, def: ColumnDef, more: seq<ColumnDef>)
    requires ResolveColumns(before).Success? && ResolveColumn(def).Failure?
    ensures ResolveColumns(before + [def] + more) == if |before| < 16 then Failure(ResolveColumn(def).error) else Failure(TooManyColumns)
  {
    hide ResolveColumn;
    var defs := before + [def] + more;
    var n := |before| + 1;
    assert defs[..n] == before + [def] && defs[..n][..n - 1] == before;
    ColumnCount(before);
    ColumnsStopAt(defs, n);
  }

  /** and any of them before an index. */
  lemma ColumnsBeforeIndexes(def: SchemaDef)
    ensures ResolveColumns(def.columns).Failure? ==> ResolveTable(def) == Failure(ResolveColumns(def.columns).error)
    ensures ResolveTable(def).Success? ==> ResolveColumns(def.columns) == Success(ResolveTable(def).value.columns)
  {
  }

  /** So it is with the indexes. */
  lemma FirstIndexError(before: seq<IndexDef>, def: IndexDef, more: seq<IndexDef>, columns: seq<Column>)
    requires ResolveIndexes(before, columns).Success? && ResolveIndex(def, columns).Failure?
    ensures ResolveIndexes(before + [def] + more, columns) == if |before| < 8 then Failure(ResolveIndex(def, columns).error) else Failure(TooManyIndexes)
  {
    hide ResolveIndex;
    var defs := before + [def] + more;
    var n := |before| + 1;
    assert defs[..n] == before + [def] && defs[..n][..n - 1] == before;
    IndexCount(before, columns);
    IndexesStopAt(defs, columns, n);
  }

  /** A part names the first column of its name. */
  lemma {:induction false} PartsColumn(columns: seq<Column>, name: string, k: nat)
    requires k < |columns| && columns[k].name == name && forall i :: 0 <= i < k ==> columns[i].name != name
    ensures ColumnPos(columns, name) == Some(k)
    decreases k
  {
    if k > 0 { PartsColumn(columns[1..], name, k - 1); }
  }
}
