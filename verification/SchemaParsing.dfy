/** What the parser makes of the tokens of a saved schema. */
module SchemaParsing {
  import opened Ordering
  import opened Values
  import opened KeyOrder
  import opened Lexer
  import opened Parser
  import opened Literals
  import opened SchemaText
  import opened SchemaTokens

  // ---------------------------------------------------------------- the parsed form of a schema

  ghost function LengthDef(rt: ResolvedType): Option<string> {
    if rt.columnType.IntType? then None else Some(Digits(rt.byteLen))
  }

  ghost function RawOf(v: DataValue): RawValue {
    match v
    case IntVal(n) => NumberLiteral(FormatInt(n))
    case StrVal(s) => StringLiteral(Chars(s))
    case BinVal(b) => HexLiteral(HexText(b))
  }

  ghost function ColumnDefOf(c: Column): ColumnDef {
    ColumnDef(c.name, TypeDef(TypeName(c.columnType.columnType), LengthDef(c.columnType)),
              if c.defaultValue.None? then None else Some(RawOf(c.defaultValue.value)))
  }

  ghost function ColumnDefsOf(cs: seq<Column>): seq<ColumnDef> {
    if cs == [] then [] else [ColumnDefOf(cs[0])] + ColumnDefsOf(cs[1..])
  }

  ghost function PartDefsOf(columns: seq<string>, parts: seq<KeyPart>): seq<PartDef>
    requires |columns| == |parts|
  {
    if parts == [] then [] else [PartDef(columns[0], Some(Digits(parts[0].len)))] + PartDefsOf(columns[1..], parts[1..])
  }

  ghost function IndexDefOf(ix: TableIndex): IndexDef
    requires |ix.columns| == |ix.parts|
  {
    IndexDef("btree", ix.unique, ix.name, PartDefsOf(ix.columns, ix.parts))
  }

  ghost function IndexDefsOf(ixs: seq<TableIndex>): seq<IndexDef>
    requires PartsNamed(ixs)
  {
    if ixs == [] then [] else [IndexDefOf(ixs[0])] + IndexDefsOf(ixs[1..])
  }

  // ---------------------------------------------------------------- one token at a time

  /** Tokens that can be taken up without an error. */
  ghost predicate Recognised(ts: seq<Token>) {
    |ts| > 0 && ts[0].kind != Invalid
  }

  ghost function At(ts: seq<Token>): State {
    State(ts, false)
  }

  lemma TakeOne(x: Token, ts: seq<Token>)
    requires Recognised(ts)
    ensures Current(At([x] + ts)) == x && Advanced(At([x] + ts)) == At(ts)
  {
    assert ([x] + ts)[1..] == ts;
  }

  lemma Expected(x: Token, ts: seq<Token>)
    requires Recognised(ts)
    ensures Expect(At([x] + ts), x.kind) == At(ts) && Current(At([x] + ts)) == x
  {
    TakeOne(x, ts);
  }

  lemma LengthParses(d: string, ts: seq<Token>)
    requires Recognised(ts)
    ensures ParseLength(At([Open] + ([Token(Number, d)] + ([Close] + ts)))) == (At(ts), Some(d))
  {
    TakeOne(Open, [Token(Number, d)] + ([Close] + ts));
    Expected(Token(Number, d), [Close] + ts);
    Expected(Close, ts);
  }

  lemma NoLength(ts: seq<Token>)
    requires Recognised(ts) && ts[0].kind != LeftParen
    ensures ParseLength(At(ts)) == (At(ts), None)
  {
  }

  ghost function TypeTail(rt: ResolvedType): seq<Token> {
    if rt.columnType.IntType? then [] else [Open] + ([Token(Number, Digits(rt.byteLen))] + [Close])
  }

  lemma TypeParses(rt: ResolvedType, ts: seq<Token>)
    requires Recognised(ts) && ts[0].kind != LeftParen
    ensures TypeTokens(rt) + ts == [Token(Ident, TypeName(rt.columnType))] + (TypeTail(rt) + ts)
    ensures Recognised(TypeTail(rt) + ts) && ParseLength(At(TypeTail(rt) + ts)) == (At(ts), LengthDef(rt))
  {
    hide ParseLength, Digits;
    if rt.columnType.IntType? {
      NoLength(ts);
      assert [] + ts == ts;
    } else {
      LengthParses(Digits(rt.byteLen), ts);
      assert TypeTail(rt) + ts == [Open] + ([Token(Number, Digits(rt.byteLen))] + ([Close] + ts));
    }
  }

  lemma ValueParses(v: DataValue, ts: seq<Token>)
    requires Recognised(ts)
    ensures ParseValue(At([LiteralToken(v)] + ts)) == (At(ts), RawOf(v))
  {
    TakeOne(LiteralToken(v), ts);
  }

  ghost function ParseDefault(p: State): (State, Option<RawValue>) {
    var (q, has) := AcceptKeyword(p, "default");
    if has then var (r, value) := ParseValue(q); (r, Some(value)) else (q, None)
  }

  lemma DefaultParses(d: Option<DataValue>, ts: seq<Token>)
    requires Recognised(ts) && ts[0].kind == Comma
    ensures Recognised(DefaultTokens(d) + ts) && (DefaultTokens(d) + ts)[0].kind != LeftParen
    ensures ParseDefault(At(DefaultTokens(d) + ts)) == (At(ts), if d.None? then None else Some(RawOf(d.value)))
  {
    hide ParseValue, LiteralToken;
    if d.None? {
      assert [] + ts == ts;
    } else {
      LiteralIsSound(d.value);
      var word, lit := Token(Ident, "default"), LiteralToken(d.value);
      assert DefaultTokens(d) + ts == [word] + ([lit] + ts);
      TakeOne(word, [lit] + ts);
      ValueParses(d.value, ts);
    }
  }

  lemma LiteralIsSound(v: DataValue)
    ensures LiteralToken(v).kind != Invalid
  {
  }

  /** One column, and the comma behind it. */
  lemma ColumnParses(c: Column, rest: seq<Token>)
    requires Recognised(rest)
    ensures ParseColumnDef(At(ColumnTokens(c) + rest)) == (At([Separator] + rest), ColumnDefOf(c))
    ensures Accept(At([Separator] + rest), Comma).0 == At(rest)
    ensures Going(At(ColumnTokens(c) + rest)) && |rest| < |ColumnTokens(c) + rest| && Recognised(ColumnTokens(c) + rest)
  {
    hide Expect, ParseLength, ParseValue, DefaultTokens, TypeTokens, TypeTail, Advanced;
    var e := [Separator] + rest;
    DefaultParses(c.defaultValue, e);
    var d := DefaultTokens(c.defaultValue) + e;
    TypeParses(c.columnType, d);
    var t := TypeTail(c.columnType) + d;
    var name, typeName := Token(Ident, c.name), Token(Ident, TypeName(c.columnType.columnType));
    Expected(name, [typeName] + t);
    Expected(typeName, t);
    TakeOne(Separator, rest);
    RegroupColumn(c, rest);
  }

  lemma RegroupColumn(c: Column, rest: seq<Token>)
    ensures ColumnTokens(c) + rest
         == [Token(Ident, c.name)] + (TypeTokens(c.columnType) + (DefaultTokens(c.defaultValue) + ([Separator] + rest)))
  {
    hide TypeTokens, DefaultTokens;
    Gather([Token(Ident, c.name)], TypeTokens(c.columnType), DefaultTokens(c.defaultValue), [Separator], rest);
  }

  lemma {:induction false} ColumnsParse(cs: seq<Column>, rest: seq<Token>)
    requires Recognised(rest) && rest[0].kind == RightParen
    ensures Recognised(ColumnsTokens(cs) + rest)
    ensures ParseColumnDefs(At(ColumnsTokens(cs) + rest)) == (At(rest), ColumnDefsOf(cs))
    decreases |cs|
  {
    hide ParseColumnDef, ColumnTokens, ColumnDefOf, Accept;
    if cs == [] {
      assert [] + rest == rest;
    } else {
      var more := ColumnsTokens(cs[1..]) + rest;
      ColumnsParse(cs[1..], rest);
      ColumnParses(cs[0], more);
      JoinTokens(ColumnTokens(cs[0]), ColumnsTokens(cs[1..]), rest);
    }
  }

  lemma JoinTokens(a: seq<Token>, b: seq<Token>, c: seq<Token>)
    ensures (a + b) + c == a + (b + c)
  {
  }

  // ---------------------------------------------------------------- indexes

  lemma PartParses(column: string, len: nat, ts: seq<Token>)
    requires Recognised(ts)
    ensures ParsePart(At(PartTokens(column, len) + ts)) == (At(ts), PartDef(column, Some(Digits(len))))
    ensures Recognised(PartTokens(column, len) + ts)
  {
    hide ParseLength, Expect, Digits;
    var tail := [Open] + ([Token(Number, Digits(len))] + ([Close] + ts));
    assert PartTokens(column, len) + ts == [Token(Ident, column)] + tail;
    Expected(Token(Ident, column), tail);
    LengthParses(Digits(len), ts);
  }

  lemma {:induction false} PartsParse(columns: seq<string>, parts: seq<KeyPart>, ts: seq<Token>)
    requires |columns| == |parts| > 0 && Recognised(ts) && ts[0].kind != Comma
    ensures Recognised(PartsTokens(columns, parts) + ts)
    ensures ParseParts(At(PartsTokens(columns, parts) + ts)) == (At(ts), PartDefsOf(columns, parts))
    decreases |parts|
  {
    hide ParsePart, PartTokens, Digits;
    var first := PartTokens(columns[0], parts[0].len);
    if |parts| == 1 {
      PartParses(columns[0], parts[0].len, ts);
      var def := PartDef(columns[0], Some(Digits(parts[0].len)));
      assert PartDefsOf(columns[1..], parts[1..]) == [] && [def] + [] == [def];
    } else {
      var more := PartsTokens(columns[1..], parts[1..]) + ts;
      PartsParse(columns[1..], parts[1..], ts);
      PartParses(columns[0], parts[0].len, [Separator] + more);
      TakeOne(Separator, more);
      JoinTokens(first, [Separator] + PartsTokens(columns[1..], parts[1..]), ts);
      JoinTokens([Separator], PartsTokens(columns[1..], parts[1..]), ts);
    }
  }

  lemma UniqueParses(unique: bool, name: string, ts: seq<Token>)
    requires Recognised(ts) && (unique || name != "unique")
    ensures var us := if unique then [Token(Ident, "unique")] else [];
      && Recognised(us + ([Token(Ident, name)] + ts))
      && AcceptKeyword(At(us + ([Token(Ident, name)] + ts)), "unique") == (At([Token(Ident, name)] + ts), unique)
  {
    if unique {
      TakeOne(Token(Ident, "unique"), [Token(Ident, name)] + ts);
    } else {
      assert [] + ([Token(Ident, name)] + ts) == [Token(Ident, name)] + ts;
    }
  }

  lemma IndexParses(ix: TableIndex, rest: seq<Token>)
    requires |ix.columns| == |ix.parts| > 0 && Recognised(rest) && (ix.unique || ix.name != "unique")
    ensures ParseIndexDef(At(IndexTokens(ix) + rest)) == (At([Separator] + rest), IndexDefOf(ix))
    ensures Accept(At([Separator] + rest), Comma).0 == At(rest)
    ensures Going(At(IndexTokens(ix) + rest)) && |rest| < |IndexTokens(ix) + rest| && Recognised(IndexTokens(ix) + rest)
  {
    hide Expect, ParseParts, PartsTokens, PartDefsOf, AcceptKeyword, Advanced;
    var e := [Close] + ([Separator] + rest);
    PartsParse(ix.columns, ix.parts, e);
    var p := PartsTokens(ix.columns, ix.parts) + e;
    var us := if ix.unique then [Token(Ident, "unique")] else [];
    var btree, name := Token(Ident, "btree"), Token(Ident, ix.name);
    UniqueParses(ix.unique, ix.name, [Open] + p);
    Expected(btree, us + ([name] + ([Open] + p)));
    Expected(name, [Open] + p);
    Expected(Open, p);
    Expected(Close, [Separator] + rest);
    TakeOne(Separator, rest);
    RegroupIndex(ix, rest);
  }

  lemma RegroupIndex(ix: TableIndex, rest: seq<Token>)
    requires |ix.columns| == |ix.parts|
    ensures var us := if ix.unique then [Token(Ident, "unique")] else [];
      IndexTokens(ix) + rest
      == [Token(Ident, "btree")] + (us + ([Token(Ident, ix.name)] + ([Open] + (PartsTokens(ix.columns, ix.parts) + ([Close] + ([Separator] + rest))))))
  {
    hide PartsTokens;
    var p := PartsTokens(ix.columns, ix.parts);
    var us := if ix.unique then [Token(Ident, "unique")] else [];
    Gather([Token(Ident, "btree")], us, [Token(Ident, ix.name), Open], p + [Close, Separator], rest);
    JoinTokens(p, [Close, Separator], rest);
    assert [Close, Separator] + rest == [Close] + ([Separator] + rest);
    var tail := p + ([Close] + ([Separator] + rest));
    assert [Token(Ident, ix.name), Open] + tail == [Token(Ident, ix.name)] + ([Open] + tail);
  }

  ghost predicate ParsableIndex(ix: TableIndex) {
    |ix.columns| == |ix.parts| > 0 && (ix.unique || ix.name != "unique")
  }

  lemma {:induction false} IndexesParse(ixs: seq<TableIndex>, rest: seq<Token>)
    requires forall i :: 0 <= i < |ixs| ==> ParsableIndex(ixs[i])
    requires Recognised(rest) && rest[0].kind == RightParen
    ensures PartsNamed(ixs) && Recognised(IndexesTokens(ixs) + rest)
    ensures ParseIndexDefs(At(IndexesTokens(ixs) + rest)) == (At(rest), IndexDefsOf(ixs))
    decreases |ixs|
  {
    hide ParseIndexDef, IndexTokens, IndexDefOf, Accept;
    if ixs == [] {
      assert [] + rest == rest;
    } else {
      var more := IndexesTokens(ixs[1..]) + rest;
      IndexesParse(ixs[1..], rest);
      IndexParses(ixs[0], more);
      JoinTokens(IndexTokens(ixs[0]), IndexesTokens(ixs[1..]), rest);
    }
  }

  // ---------------------------------------------------------------- the whole file

  lemma Heading(word: string, ts: seq<Token>)
    requires Recognised(ts)
    ensures Expect(ExpectKeyword(At([Token(Ident, word), Open] + ts), word), LeftParen) == At(ts)
  {
    assert [Token(Ident, word), Open] + ts == [Token(Ident, word)] + ([Open] + ts);
    TakeOne(Token(Ident, word), [Open] + ts);
    Expected(Open, ts);
  }

  lemma Closing(ts: seq<Token>)
    requires Recognised(ts)
    ensures Accept(Expect(At([Close, Separator] + ts), RightParen), Comma).0 == At(ts)
  {
    assert [Close, Separator] + ts == [Close] + ([Separator] + ts);
    Expected(Close, [Separator] + ts);
    TakeOne(Separator, ts);
  }

  /** The tokens of a saved schema parse, without an error and to the end, into that schema's definitions. */
  lemma {:induction false} FileParses(t: Table)
    requires forall i :: 0 <= i < |t.indexes| ==> ParsableIndex(t.indexes[i])
    ensures PartsNamed(t.indexes)
    ensures ParseSchema(At(FileTokens(t))) == (At([EndToken]), SchemaDef(ColumnDefsOf(t.columns), IndexDefsOf(t.indexes)))
  {
    hide Expect, ExpectKeyword, Accept, ParseColumnDefs, ParseIndexDefs, ColumnsTokens, IndexesTokens, ColumnDefsOf, IndexDefsOf;
    var last := [Close] + [EndToken];
    var e := [Close, Separator] + last;
    IndexesParse(t.indexes, e);
    var ix := IndexesTokens(t.indexes) + e;
    var middle := [Close, Separator] + ([Token(Ident, "indexes"), Open] + ix);
    ColumnsParse(t.columns, middle);
    var cs := ColumnsTokens(t.columns) + middle;
    Heading("table", [Token(Ident, "columns"), Open] + cs);
    Heading("columns", cs);
    Closing([Token(Ident, "indexes"), Open] + ix);
    Heading("indexes", ix);
    Closing(last);
    Expected(Close, [EndToken]);
    RegroupFile(t);
  }

  lemma RegroupFile(t: Table)
    requires PartsNamed(t.indexes)
    ensures FileTokens(t)
         == [Token(Ident, "table"), Open] + ([Token(Ident, "columns"), Open] + (ColumnsTokens(t.columns)
            + ([Close, Separator] + ([Token(Ident, "indexes"), Open] + (IndexesTokens(t.indexes) + ([Close, Separator] + ([Close] + [EndToken])))))))
  {
    hide ColumnsTokens, IndexesTokens;
    assert [Close, Separator] + ([Close] + [EndToken]) == [Close, Separator, Close, EndToken];
    var ix := IndexesTokens(t.indexes) + [Close, Separator, Close, EndToken];
    assert [Close, Separator] + ([Token(Ident, "indexes"), Open] + ix) == [Close, Separator, Token(Ident, "indexes"), Open] + ix;
    var cs := ColumnsTokens(t.columns) + ([Close, Separator, Token(Ident, "indexes"), Open] + ix);
    assert [Token(Ident, "table"), Open] + ([Token(Ident, "columns"), Open] + cs)
        == [Token(Ident, "table"), Open, Token(Ident, "columns"), Open] + cs;
  }
}
