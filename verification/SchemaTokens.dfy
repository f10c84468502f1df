/** What the lexer makes of a saved schema, piece by piece. */
module SchemaTokens {
  import opened Ordering
  import opened Values
  import opened KeyOrder
  import opened Lexer
  import opened Literals
  import opened SchemaText

  // ---------------------------------------------------------------- one token at the front of a text

  lemma {:induction false} SpanTo(a: string, b: string, test: char -> bool)
    requires forall i :: 0 <= i < |a| ==> test(a[i])
    requires b == "" || !test(b[0])
    ensures Span(a + b, test) == |a|
    decreases |a|
  {
    if a != "" {
      assert (a + b)[1..] == a[1..] + b;
      SpanTo(a[1..], b, test);
    } else {
      assert a + b == b;
    }
  }

  lemma CutText(a: string, b: string)
    ensures (a + b)[..|a|] == a && (a + b)[|a|..] == b
  {
  }

  /** Blanks in front change nothing. */
  lemma Blanks(w: string, b: string)
    requires forall i :: 0 <= i < |w| ==> IsWhitespace(w[i])
    ensures Tokens(w + b) == Tokens(b)
  {
    SpanBlanks(w, b);
    hide Span, TokenAt;
  }

  lemma {:induction false} SpanBlanks(w: string, b: string)
    requires forall i :: 0 <= i < |w| ==> IsWhitespace(w[i])
    ensures SkipBlanks(w + b) == SkipBlanks(b)
    decreases |w|
  {
    if w != "" {
      assert (w + b)[1..] == w[1..] + b;
      SpanBlanks(w[1..], b);
    } else {
      assert w + b == b;
    }
  }

  /** A text that starts with a token. */
  lemma FirstToken(a: string, b: string, token: Token)
    requires a != "" && !IsWhitespace(a[0]) && TokenAt(a + b) == (token, |a|)
    ensures Tokens(a + b) == [token] + Tokens(b)
  {
    CutText(a, b);
    assert (a + b)[0] == a[0];
    assert SkipBlanks(a + b) == a + b;
    hide TokenAt, Span;
  }

  ghost predicate IsName(s: string) {
    s != "" && IsIdentStart(s[0]) && forall i :: 0 <= i < |s| ==> IsIdent(s[i])
  }

  lemma Word(name: string, b: string)
    requires IsName(name) && (b == "" || !IsIdent(b[0]))
    ensures Tokens(name + b) == [Token(Ident, name)] + Tokens(b)
  {
    var s := name + b;
    assert s[1..] == name[1..] + b;
    SpanTo(name[1..], b, IsIdent);
    CutText(name, b);
    FirstToken(name, b, Token(Ident, name));
  }

  lemma {:induction false} NumberSpanTo(a: string, b: string)
    requires forall i :: 0 <= i < |a| ==> IsDigit(a[i])
    requires b == "" || (!IsDigit(b[0]) && b[0] != '.')
    ensures NumberSpan(a + b, false) == |a|
    decreases |a|
  {
    if a != "" {
      assert (a + b)[1..] == a[1..] + b;
      NumberSpanTo(a[1..], b);
    } else {
      assert a + b == b;
    }
  }

  lemma NumberToken(digits: string, b: string)
    requires digits != "" && forall i :: 0 <= i < |digits| ==> IsDigit(digits[i])
    requires b == "" || (!IsDigit(b[0]) && b[0] != '.' && b[0] != 'x')
    ensures Tokens(digits + b) == [Token(Number, digits)] + Tokens(b)
  {
    var s := digits + b;
    assert s[1..] == digits[1..] + b;
    NumberSpanTo(digits[1..], b);
    CutText(digits, b);
    assert CharAt(s, 1) != 'x';
    FirstToken(digits, b, Token(Number, digits));
  }

  lemma HexToken(h: string, b: string)
    requires h != "" && forall i :: 0 <= i < |h| ==> IsHexDigit(h[i])
    requires b == "" || !IsHexDigit(b[0])
    ensures Tokens(("0x" + h) + b) == [Token(Hex, h)] + Tokens(b)
  {
    var a := "0x" + h;
    var s := a + b;
    assert s[2..] == h + b && s[0] == '0' && s[1] == 'x';
    SpanTo(h, b, IsHexDigit);
    assert s[2..2 + |h|] == h;
    FirstToken(a, b, Token(Hex, h));
  }

  lemma TextToken(t: string, b: string)
    requires forall i :: 0 <= i < |t| ==> NotQuote(t[i])
    ensures Tokens(("\"" + t + "\"") + b) == [Token(Text, t)] + Tokens(b)
  {
    var a := "\"" + t + "\"";
    var s := a + b;
    assert s[0] == '"' && s[1..] == t + ("\"" + b);
    SpanTo(t, "\"" + b, NotQuote);
    assert s[1..1 + |t|] == t;
    FirstToken(a, b, Token(Text, t));
  }

  lemma SymbolToken(c: char, b: string)
    requires c == '(' || c == ')' || c == ','
    ensures Tokens([c] + b) == [Token(SymbolKind(c), [c])] + Tokens(b)
  {
    assert ([c] + b)[..1] == [c];
    FirstToken([c], b, Token(SymbolKind(c), [c]));
  }

  // ---------------------------------------------------------------- the pieces of a schema

  ghost const Open: Token := Token(LeftParen, "(")
  ghost const Close: Token := Token(RightParen, ")")
  ghost const Separator: Token := Token(Comma, ",")

  ghost function TypeTokens(rt: ResolvedType): seq<Token> {
    if rt.columnType.IntType? then [Token(Ident, "int")]
    else [Token(Ident, TypeName(rt.columnType)), Open, Token(Number, Digits(rt.byteLen)), Close]
  }

  ghost function LiteralToken(v: DataValue): Token {
    match v
    case IntVal(n) => Token(Number, FormatInt(n))
    case StrVal(s) => Token(Text, Chars(s))
    case BinVal(b) => Token(Hex, HexText(b))
  }

  ghost function DefaultTokens(d: Option<DataValue>): seq<Token> {
    if d.None? then [] else [Token(Ident, "default"), LiteralToken(d.value)]
  }

  ghost function ColumnTokens(c: Column): seq<Token> {
    [Token(Ident, c.name)] + (TypeTokens(c.columnType) + (DefaultTokens(c.defaultValue) + [Separator]))
  }

  /** A default whose literal the lexer reads as one token. */
  ghost predicate Readable(v: DataValue) {
    match v
    case IntVal(n) => n >= 0
    case StrVal(s) => forall i :: 0 <= i < |s| ==> s[i] as int != '"' as int
    case BinVal(b) => b != []
  }

  lemma TypeNameIsName(t: ColumnType)
    ensures IsName(TypeName(t))
  {
  }

  lemma JoinText(a: string, b: string, c: string)
    ensures (a + b) + c == a + (b + c)
  {
  }

  lemma LexType(rt: ResolvedType, b: string)
    requires b == "" || !IsIdent(b[0])
    ensures Tokens(TypeText(rt) + b) == TypeTokens(rt) + Tokens(b)
  {
    hide Tokens, Digits, TypeName;
    TypeNameIsName(rt.columnType);
    if rt.columnType.IntType? {
      Word("int", b);
    } else {
      var name, n := TypeName(rt.columnType), Digits(rt.byteLen);
      DigitsAreDigits(rt.byteLen);
      JoinText(name, "(" + (n + ")"), b);
      JoinText("(", n + ")", b);
      JoinText(n, ")", b);
      Word(name, "(" + (n + (")" + b)));
      SymbolToken('(', n + (")" + b));
      NumberToken(n, ")" + b);
      SymbolToken(')', b);
    }
  }

  lemma LexLiteral(v: DataValue, b: string)
    requires Readable(v) && b != "" && b[0] == ','
    ensures Tokens(Literal(v) + b) == [LiteralToken(v)] + Tokens(b)
  {
    hide Tokens, Digits, HexText;
    match v
    case IntVal(n) =>
      DigitsAreDigits(n);
      NumberToken(Digits(n), b);
    case StrVal(s) =>
      TextToken(Chars(s), b);
    case BinVal(x) =>
      HexTextBack(x);
      HexToken(HexText(x), b);
  }

  lemma LexDefault(d: Option<DataValue>, b: string)
    requires (d.Some? ==> Readable(d.value)) && b != "" && b[0] == ','
    ensures Tokens(DefaultText(d) + b) == DefaultTokens(d) + Tokens(b)
    ensures var s := DefaultText(d) + b; s != "" && !IsIdent(s[0])
  {
    hide Tokens, Literal, LiteralToken;
    if d.None? {
      assert "" + b == b;
    } else {
      var lit := Literal(d.value);
      LexLiteral(d.value, b);
      JoinText(" default ", lit, b);
      DefaultWord(lit + b);
    }
  }

  lemma DefaultWord(b: string)
    ensures Tokens(" default " + b) == [Token(Ident, "default")] + Tokens(b)
  {
    hide Tokens;
    assert " default " + b == " " + ("default" + (" " + b));
    Blanks(" ", "default" + (" " + b));
    Word("default", " " + b);
    Blanks(" ", b);
  }

  lemma LexColumn(c: Column, rest: string)
    requires IsName(c.name) && (c.defaultValue.Some? ==> Readable(c.defaultValue.value))
    ensures Tokens(ColumnText(c) + rest) == ColumnTokens(c) + Tokens(rest)
  {
    hide Tokens, TypeText, DefaultText, TypeTokens, DefaultTokens;
    var e := ",\n" + rest;
    var d := DefaultText(c.defaultValue) + e;
    var t := TypeText(c.columnType) + d;
    ColumnPieces(c, rest);
    Blanks("    ", c.name + (" " + t));
    Word(c.name, " " + t);
    Blanks(" ", t);
    LexDefault(c.defaultValue, e);
    LexType(c.columnType, d);
    CommaLine(rest);
    Gather([Token(Ident, c.name)], TypeTokens(c.columnType), DefaultTokens(c.defaultValue), [Separator], Tokens(rest));
  }

  lemma ColumnPieces(c: Column, rest: string)
    ensures ColumnText(c) + rest
         == "    " + (c.name + (" " + (TypeText(c.columnType) + (DefaultText(c.defaultValue) + (",\n" + rest)))))
  {
    hide TypeText, DefaultText;
    var (n, t, d) := (c.name, TypeText(c.columnType), DefaultText(c.defaultValue));
    JoinText("    " + n + " " + t + d, ",\n", rest);
    JoinText("    " + n + " " + t, d, ",\n" + rest);
    JoinText("    " + n + " ", t, d + (",\n" + rest));
    JoinText("    " + n, " ", t + (d + (",\n" + rest)));
    JoinText("    ", n, " " + (t + (d + (",\n" + rest))));
  }

  lemma CommaLine(rest: string)
    ensures Tokens(",\n" + rest) == [Separator] + Tokens(rest)
  {
    hide Tokens;
    assert ",\n" + rest == "," + ("\n" + rest);
    SymbolToken(',', "\n" + rest);
    Blanks("\n", rest);
  }

  lemma Gather(a: seq<Token>, b: seq<Token>, c: seq<Token>, d: seq<Token>, r: seq<Token>)
    ensures a + (b + (c + (d + r))) == (a + (b + (c + d))) + r
  {
  }

  // ---------------------------------------------------------------- all columns

  ghost function ColumnsTokens(cs: seq<Column>): seq<Token> {
    if cs == [] then [] else ColumnTokens(cs[0]) + ColumnsTokens(cs[1..])
  }

  ghost predicate ReadableColumn(c: Column) {
    IsName(c.name) && (c.defaultValue.Some? ==> Readable(c.defaultValue.value))
  }

  lemma {:induction false} ColumnsTextCons(cs: seq<Column>)
    requires cs != []
    ensures ColumnsText(cs) == ColumnText(cs[0]) + ColumnsText(cs[1..])
    decreases |cs|
  {
    hide ColumnText;
    var n := |cs| - 1;
    if n > 0 {
      ColumnsTextCons(cs[..n]);
      assert cs[..n][1..] == cs[1..][..n - 1];
      JoinText(ColumnText(cs[0]), ColumnsText(cs[1..][..n - 1]), ColumnText(cs[n]));
    } else {
      assert cs[..0] == [] && cs[1..] == [];
      assert "" + ColumnText(cs[0]) == ColumnText(cs[0]) + "";
    }
  }

  lemma {:induction false} LexColumns(cs: seq<Column>, rest: string)
    requires forall i :: 0 <= i < |cs| ==> ReadableColumn(cs[i])
    ensures Tokens(ColumnsText(cs) + rest) == ColumnsTokens(cs) + Tokens(rest)
    decreases |cs|
  {
    hide Tokens, ColumnText, ColumnTokens;
    if cs == [] {
      assert "" + rest == rest;
    } else {
      ColumnsTextCons(cs);
      JoinText(ColumnText(cs[0]), ColumnsText(cs[1..]), rest);
      LexColumn(cs[0], ColumnsText(cs[1..]) + rest);
      LexColumns(cs[1..], rest);
    }
  }

  // ---------------------------------------------------------------- indexes

  ghost function PartTokens(column: string, len: nat): seq<Token> {
    [Token(Ident, column), Open, Token(Number, Digits(len)), Close]
  }

  ghost function PartsTokens(columns: seq<string>, parts: seq<KeyPart>): seq<Token>
    requires |columns| == |parts|
  {
    if parts == [] then []
    else if |parts| == 1 then PartTokens(columns[0], parts[0].len)
    else PartTokens(columns[0], parts[0].len) + ([Separator] + PartsTokens(columns[1..], parts[1..]))
  }

  ghost function IndexTokens(ix: TableIndex): seq<Token>
    requires |ix.columns| == |ix.parts|
  {
    [Token(Ident, "btree")] + ((if ix.unique then [Token(Ident, "unique")] else [])
      + ([Token(Ident, ix.name), Open] + (PartsTokens(ix.columns, ix.parts) + [Close, Separator])))
  }

  lemma LexPart(column: string, len: nat, b: string)
    requires IsName(column)
    ensures Tokens(PartText(column, len) + b) == PartTokens(column, len) + Tokens(b)
  {
    hide Tokens, Digits;
    var n := Digits(len);
    DigitsAreDigits(len);
    assert PartText(column, len) + b == column + ("(" + (n + (")" + b)));
    Word(column, "(" + (n + (")" + b)));
    SymbolToken('(', n + (")" + b));
    NumberToken(n, ")" + b);
    SymbolToken(')', b);
  }

  lemma {:induction false} LexParts(columns: seq<string>, parts: seq<KeyPart>, b: string)
    requires |columns| == |parts| && forall i :: 0 <= i < |columns| ==> IsName(columns[i])
    ensures Tokens(PartsText(columns, parts) + b) == PartsTokens(columns, parts) + Tokens(b)
    decreases |parts|
  {
    hide Tokens, PartText, PartTokens;
    if parts == [] {
      assert "" + b == b;
    } else if |parts| == 1 {
      LexPart(columns[0], parts[0].len, b);
    } else {
      var first, more := PartText(columns[0], parts[0].len), PartsText(columns[1..], parts[1..]);
      LexParts(columns[1..], parts[1..], b);
      CommaSpace(more + b);
      LexPart(columns[0], parts[0].len, ", " + (more + b));
      JoinText(first + ", ", more, b);
      JoinText(first, ", ", more + b);
      Gather3(PartTokens(columns[0], parts[0].len), [Separator], PartsTokens(columns[1..], parts[1..]), Tokens(b));
    }
  }

  lemma CommaSpace(b: string)
    ensures Tokens(", " + b) == [Separator] + Tokens(b)
  {
    hide Tokens;
    assert ", " + b == "," + (" " + b);
    SymbolToken(',', " " + b);
    Blanks(" ", b);
  }

  lemma Gather3(a: seq<Token>, b: seq<Token>, c: seq<Token>, r: seq<Token>)
    ensures a + (b + (c + r)) == (a + (b + c)) + r
  {
  }

  ghost predicate ReadableIndex(ix: TableIndex) {
    && |ix.columns| == |ix.parts| && IsName(ix.name)
    && forall i :: 0 <= i < |ix.columns| ==> IsName(ix.columns[i])
  }

  lemma EndLine(rest: string)
    ensures Tokens("),\n" + rest) == [Close, Separator] + Tokens(rest)
  {
    hide Tokens;
    assert "),\n" + rest == ")" + (",\n" + rest);
    SymbolToken(')', ",\n" + rest);
    CommaLine(rest);
  }

  lemma NameAndParen(name: string, b: string)
    requires IsName(name)
    ensures Tokens(name + (" (" + b)) == [Token(Ident, name), Open] + Tokens(b)
  {
    hide Tokens;
    Word(name, " (" + b);
    assert " (" + b == " " + ("(" + b);
    Blanks(" ", "(" + b);
    SymbolToken('(', b);
  }

  lemma UniqueWord(unique: bool, b: string)
    ensures Tokens("btree" + ((if unique then " unique " else " ") + b))
         == [Token(Ident, "btree")] + ((if unique then [Token(Ident, "unique")] else []) + Tokens(b))
  {
    hide Tokens;
    Word("btree", (if unique then " unique " else " ") + b);
    if unique {
      UniqueKeyword(b);
    } else {
      Blanks(" ", b);
    }
  }

  lemma UniqueKeyword(b: string)
    ensures Tokens(" unique " + b) == [Token(Ident, "unique")] + Tokens(b)
  {
    hide Tokens;
    assert " unique " + b == " " + ("unique" + (" " + b));
    Blanks(" ", "unique" + (" " + b));
    Word("unique", " " + b);
    Blanks(" ", b);
  }

  lemma LexIndex(ix: TableIndex, rest: string)
    requires ReadableIndex(ix)
    ensures Tokens(IndexText(ix) + rest) == IndexTokens(ix) + Tokens(rest)
  {
    hide Tokens, PartsText, PartsTokens;
    var p := PartsText(ix.columns, ix.parts);
    var u := if ix.unique then " unique " else " ";
    IndexPieces(ix, rest);
    Blanks("    ", "btree" + (u + (ix.name + (" (" + (p + ("),\n" + rest))))));
    UniqueWord(ix.unique, ix.name + (" (" + (p + ("),\n" + rest))));
    NameAndParen(ix.name, p + ("),\n" + rest));
    LexParts(ix.columns, ix.parts, "),\n" + rest);
    EndLine(rest);
    Gather([Token(Ident, "btree")], if ix.unique then [Token(Ident, "unique")] else [], [Token(Ident, ix.name), Open],
           PartsTokens(ix.columns, ix.parts) + [Close, Separator], Tokens(rest));
    Gather3(PartsTokens(ix.columns, ix.parts), [Close, Separator], [], Tokens(rest));
  }

  lemma IndexPieces(ix: TableIndex, rest: string)
    requires |ix.columns| == |ix.parts|
    ensures var u := if ix.unique then " unique " else " ";
      IndexText(ix) + rest
      == "    " + ("btree" + (u + (ix.name + (" (" + (PartsText(ix.columns, ix.parts) + ("),\n" + rest))))))
  {
    hide PartsText;
    var (n, p, u) := (ix.name, PartsText(ix.columns, ix.parts), if ix.unique then " unique " else " ");
    JoinText("    " + "btree" + u + n + " (" + p, "),\n", rest);
    JoinText("    " + "btree" + u + n + " (", p, "),\n" + rest);
    JoinText("    " + "btree" + u + n, " (", p + ("),\n" + rest));
    JoinText("    " + "btree" + u, n, " (" + (p + ("),\n" + rest)));
    JoinText("    " + "btree", u, n + (" (" + (p + ("),\n" + rest))));
    JoinText("    ", "btree", u + (n + (" (" + (p + ("),\n" + rest)))));
  }

  ghost function IndexesTokens(ixs: seq<TableIndex>): seq<Token>
    requires PartsNamed(ixs)
  {
    if ixs == [] then [] else IndexTokens(ixs[0]) + IndexesTokens(ixs[1..])
  }

  lemma {:induction false} IndexesTextCons(ixs: seq<TableIndex>)
    requires PartsNamed(ixs) && ixs != []
    ensures IndexesText(ixs) == IndexText(ixs[0]) + IndexesText(ixs[1..])
    decreases |ixs|
  {
    hide IndexText;
    var n := |ixs| - 1;
    if n > 0 {
      IndexesTextCons(ixs[..n]);
      assert ixs[..n][1..] == ixs[1..][..n - 1];
      JoinText(IndexText(ixs[0]), IndexesText(ixs[1..][..n - 1]), IndexText(ixs[n]));
    } else {
      assert ixs[..0] == [] && ixs[1..] == [];
      assert "" + IndexText(ixs[0]) == IndexText(ixs[0]) + "";
    }
  }

  lemma {:induction false} LexIndexes(ixs: seq<TableIndex>, rest: string)
    requires forall i :: 0 <= i < |ixs| ==> ReadableIndex(ixs[i])
    ensures PartsNamed(ixs) && Tokens(IndexesText(ixs) + rest) == IndexesTokens(ixs) + Tokens(rest)
    decreases |ixs|
  {
    hide Tokens, IndexText, IndexTokens;
    if ixs == [] {
      assert "" + rest == rest;
    } else {
      IndexesTextCons(ixs);
      JoinText(IndexText(ixs[0]), IndexesText(ixs[1..]), rest);
      LexIndex(ixs[0], IndexesText(ixs[1..]) + rest);
      LexIndexes(ixs[1..], rest);
    }
  }

  // ---------------------------------------------------------------- the whole file

  ghost predicate ReadableTable(t: Table) {
    && (forall i :: 0 <= i < |t.columns| ==> ReadableColumn(t.columns[i]))
    && (forall i :: 0 <= i < |t.indexes| ==> ReadableIndex(t.indexes[i]))
  }

  ghost const EndToken: Token := Token(EndOfText, "")

  ghost function FileTokens(t: Table): seq<Token>
    requires PartsNamed(t.indexes)
  {
    [Token(Ident, "table"), Open, Token(Ident, "columns"), Open]
    + (ColumnsTokens(t.columns)
       + ([Close, Separator, Token(Ident, "indexes"), Open]
          + (IndexesTokens(t.indexes) + [Close, Separator, Close, EndToken])))
  }

  lemma FileHead(b: string)
    ensures Tokens("table (\n" + ("  columns (\n" + b)) == [Token(Ident, "table"), Open, Token(Ident, "columns"), Open] + Tokens(b)
  {
    hide Tokens;
    Opening("table", "  columns (\n" + b);
    assert "table (\n" + ("  columns (\n" + b) == "table" + (" (\n" + ("  columns (\n" + b));
    assert "  columns (\n" + b == "  " + ("columns" + (" (\n" + b));
    Blanks("  ", "columns" + (" (\n" + b));
    Opening("columns", b);
  }

  lemma Opening(name: string, b: string)
    requires IsName(name)
    ensures Tokens(name + (" (\n" + b)) == [Token(Ident, name), Open] + Tokens(b)
  {
    hide Tokens;
    assert " (\n" + b == " (" + ("\n" + b);
    NameAndParen(name, "\n" + b);
    Blanks("\n", b);
  }

  lemma FileMiddle(b: string)
    ensures Tokens("  ),\n" + ("  indexes (\n" + b)) == [Close, Separator, Token(Ident, "indexes"), Open] + Tokens(b)
  {
    hide Tokens;
    assert "  ),\n" + ("  indexes (\n" + b) == "  " + ("),\n" + ("  indexes (\n" + b));
    Blanks("  ", "),\n" + ("  indexes (\n" + b));
    EndLine("  indexes (\n" + b);
    assert "  indexes (\n" + b == "  " + ("indexes" + (" (\n" + b));
    Blanks("  ", "indexes" + (" (\n" + b));
    Opening("indexes", b);
  }

  lemma FileTail()
    ensures Tokens("  ),\n" + ")\n") == [Close, Separator, Close, EndToken]
  {
    hide Tokens;
    assert "  ),\n" + ")\n" == "  " + ("),\n" + ")\n");
    Blanks("  ", "),\n" + ")\n");
    EndLine(")\n");
    assert ")\n" == ")" + "\n" && "\n" == "\n" + "";
    SymbolToken(')', "\n");
    Blanks("\n", "");
    NoText();
  }

  lemma NoText()
    ensures Tokens("") == [EndToken]
  {
  }

  lemma FilePieces(t: Table)
    requires PartsNamed(t.indexes)
    ensures FileText(t)
         == "table (\n" + ("  columns (\n" + (ColumnsText(t.columns) + ("  ),\n" + ("  indexes (\n" + (IndexesText(t.indexes) + ("  ),\n" + ")\n"))))))
  {
    hide ColumnsText, IndexesText;
    var (c, i) := (ColumnsText(t.columns), IndexesText(t.indexes));
    JoinText("table (\n" + "  columns (\n" + c + "  ),\n" + "  indexes (\n" + i, "  ),\n", ")\n");
    JoinText("table (\n" + "  columns (\n" + c + "  ),\n" + "  indexes (\n", i, "  ),\n" + ")\n");
    JoinText("table (\n" + "  columns (\n" + c + "  ),\n", "  indexes (\n", i + ("  ),\n" + ")\n"));
    JoinText("table (\n" + "  columns (\n" + c, "  ),\n", "  indexes (\n" + (i + ("  ),\n" + ")\n")));
    JoinText("table (\n" + "  columns (\n", c, "  ),\n" + ("  indexes (\n" + (i + ("  ),\n" + ")\n"))));
    JoinText("table (\n", "  columns (\n", c + ("  ),\n" + ("  indexes (\n" + (i + ("  ),\n" + ")\n")))));
  }

  /** The saved file, through the lexer. */
  lemma {:induction false} LexFile(t: Table)
    requires ReadableTable(t)
    ensures PartsNamed(t.indexes) && Tokens(FileText(t)) == FileTokens(t)
  {
    hide Tokens, ColumnsText, IndexesText, ColumnsTokens, IndexesTokens, ReadableColumn;
    var tail := "  ),\n" + ")\n";
    LexIndexes(t.indexes, tail);
    FilePieces(t);
    var indexes := IndexesText(t.indexes) + tail;
    var middle := "  ),\n" + ("  indexes (\n" + indexes);
    FileHead(ColumnsText(t.columns) + middle);
    LexColumns(t.columns, middle);
    FileMiddle(indexes);
    FileTail();
  }
}
