/** The recursive-descent parser of schema files: a state of tokens and a sticky error, and what each rule makes of it. */
module Parser {
  import opened Ordering
  import opened Lexer

  /** The tokens not consumed, the current one first, and whether an error has been seen. */
  datatype State = State(rest: seq<Token>, failed: bool)

  ghost predicate Good(p: State) {
    |p.rest| > 0
  }

  function Current(p: State): Token {
    if p.rest == [] then Token(EndOfText, "") else p.rest[0]
  }

  function Fail(p: State): State {
    p.(failed := true)
  }

  /** parser_next: at the end it stays where it is. */
  function Advanced(p: State): State {
    var rest := if |p.rest| > 1 then p.rest[1..] else p.rest;
    State(rest, p.failed || Current(State(rest, false)).kind == Invalid)
  }

  function Accept(p: State, kind: TokenKind): (State, bool) {
    if Current(p).kind == kind then (Advanced(p), true) else (p, false)
  }

  function Expect(p: State, kind: TokenKind): State {
    if Current(p).kind == kind then Advanced(p) else Fail(p)
  }

  function AcceptKeyword(p: State, keyword: string): (State, bool) {
    if Current(p) == Token(Ident, keyword) then (Advanced(p), true) else (p, false)
  }

  function ExpectKeyword(p: State, keyword: string): State {
    if Current(p) == Token(Ident, keyword) then Advanced(p) else Fail(p)
  }

  // ---------------------------------------------------------------- what is parsed

  datatype RawValue = NumberLiteral(text: string) | StringLiteral(text: string) | HexLiteral(text: string) | NoLiteral

  datatype TypeDef = TypeDef(name: string, len: Option<string>)

  datatype ColumnDef = ColumnDef(column: string, columnType: TypeDef, defaultValue: Option<RawValue>)

  datatype PartDef = PartDef(column: string, len: Option<string>)

  datatype IndexDef = IndexDef(typeName: string, unique: bool, name: string, parts: seq<PartDef>)

  datatype SchemaDef = SchemaDef(columns: seq<ColumnDef>, indexes: seq<IndexDef>)

  // ---------------------------------------------------------------- the rules

  function ParseValue(p: State): (State, RawValue) {
    match Current(p).kind
    case Number => (Advanced(p), NumberLiteral(Current(p).lexeme))
    case Text => (Advanced(p), StringLiteral(Current(p).lexeme))
    case Hex => (Advanced(p), HexLiteral(Current(p).lexeme))
    case _ => (Fail(p), NoLiteral)
  }

  /** A length in parentheses, if there is one. */
  function ParseLength(p: State): (State, Option<string>) {
    var (q, has) := Accept(p, LeftParen);
    if has then (Expect(Expect(q, Number), RightParen), Some(Current(q).lexeme)) else (q, None)
  }

  function ParseColumnDef(p: State): (State, ColumnDef) {
    var name := Current(p).lexeme;
    var afterName := Expect(p, Ident);
    var typeName := Current(afterName).lexeme;
    var (afterType, len) := ParseLength(Expect(afterName, Ident));
    var (q, has) := AcceptKeyword(afterType, "default");
    if has then
      var (r, value) := ParseValue(q);
      (r, ColumnDef(name, TypeDef(typeName, len), Some(value)))
    else (q, ColumnDef(name, TypeDef(typeName, len), None))
  }

  function ParsePart(p: State): (State, PartDef) {
    var name := Current(p).lexeme;
    var (q, len) := ParseLength(Expect(p, Ident));
    (q, PartDef(name, len))
  }

  // ---------------------------------------------------------------- every rule gets on, or fails

  /** A rule's result never has more tokens left than it began with, and an error stays. */
  ghost predicate Onward(p: State, q: State) {
    |q.rest| <= |p.rest| && (Good(p) ==> Good(q)) && (p.failed ==> q.failed)
  }

  /** It has used up a token, or failed. */
  ghost predicate Progress(p: State, q: State) {
    Onward(p, q) && (q.failed || |q.rest| < |p.rest|)
  }

  /** A text of tokens ends in the only end of text there is. */
  ghost predicate WellEnded(p: State) {
    Good(p) && forall i :: 0 <= i < |p.rest| ==> (p.rest[i].kind == EndOfText <==> i == |p.rest| - 1)
  }

  lemma AdvancedOnward(p: State)
    ensures Onward(p, Advanced(p)) && (WellEnded(p) ==> WellEnded(Advanced(p)))
    ensures WellEnded(p) && Current(p).kind != EndOfText ==> |Advanced(p).rest| < |p.rest|
  {
  }

  lemma ExpectProgress(p: State, kind: TokenKind)
    ensures Onward(p, Expect(p, kind)) && (WellEnded(p) ==> WellEnded(Expect(p, kind)))
    ensures WellEnded(p) && kind != EndOfText ==> Progress(p, Expect(p, kind))
  {
    AdvancedOnward(p);
  }

  lemma LengthOnward(p: State)
    ensures Onward(p, ParseLength(p).0) && (WellEnded(p) ==> WellEnded(ParseLength(p).0))
  {
    AdvancedOnward(p);
    var q := Accept(p, LeftParen).0;
    ExpectProgress(q, Number);
    ExpectProgress(Expect(q, Number), RightParen);
  }

  lemma ValueOnward(p: State)
    ensures Onward(p, ParseValue(p).0) && (WellEnded(p) ==> WellEnded(ParseValue(p).0))
  {
    AdvancedOnward(p);
  }

  lemma ColumnProgress(p: State)
    requires WellEnded(p)
    ensures Progress(p, ParseColumnDef(p).0) && WellEnded(ParseColumnDef(p).0)
  {
    hide WellEnded, Advanced;
    var afterName := Expect(p, Ident);
    var afterIdent := Expect(afterName, Ident);
    var afterType := ParseLength(afterIdent).0;
    ExpectProgress(p, Ident);
    ExpectProgress(afterName, Ident);
    LengthOnward(afterIdent);
    AdvancedOnward(afterType);
    ValueOnward(Advanced(afterType));
  }

  lemma PartProgress(p: State)
    requires WellEnded(p)
    ensures Progress(p, ParsePart(p).0) && WellEnded(ParsePart(p).0)
  {
    hide WellEnded, Advanced;
    ExpectProgress(p, Ident);
    LengthOnward(Expect(p, Ident));
  }

  lemma AcceptOnward(p: State, kind: TokenKind)
    ensures Onward(p, Accept(p, kind).0) && (WellEnded(p) ==> WellEnded(Accept(p, kind).0))
    ensures WellEnded(p) && kind != EndOfText && Accept(p, kind).1 ==> |Accept(p, kind).0.rest| < |p.rest|
  {
    AdvancedOnward(p);
  }

  // ---------------------------------------------------------------- the lists

  /** Whether a list loop goes round: no closing parenthesis yet, and no error. */
  predicate Going(p: State) {
    Current(p).kind != RightParen && !p.failed
  }

  function ParseColumnDefs(p: State): (r: (State, seq<ColumnDef>))
    decreases !p.failed, |p.rest|
  {
    if !Going(p) then (p, [])
    else
      var (q, def) := ParseColumnDef(p);
      var next := Accept(q, Comma).0;
      if next.failed || |next.rest| < |p.rest| then
        var (r, more) := ParseColumnDefs(next);
        (r, [def] + more)
      else (next, [def])
  }

  /** A list of at least one part; it goes on as long as commas follow. */
  function ParseParts(p: State): (State, seq<PartDef>)
    decreases |p.rest|
  {
    var (q, part) := ParsePart(p);
    var (next, more) := Accept(q, Comma);
    if more && |next.rest| < |p.rest| then
      var (r, parts) := ParseParts(next);
      (r, [part] + parts)
    else (next, [part])
  }

  function ParseIndexDef(p: State): (State, IndexDef) {
    var typeName := Current(p).lexeme;
    var (q, unique) := AcceptKeyword(Expect(p, Ident), "unique");
    var name := Current(q).lexeme;
    var (r, parts) := ParseParts(Expect(Expect(q, Ident), LeftParen));
    (Expect(r, RightParen), IndexDef(typeName, unique, name, parts))
  }

  function ParseIndexDefs(p: State): (State, seq<IndexDef>)
    decreases !p.failed, |p.rest|
  {
    if !Going(p) then (p, [])
    else
      var (q, def) := ParseIndexDef(p);
      var next := Accept(q, Comma).0;
      if next.failed || |next.rest| < |p.rest| then
        var (r, more) := ParseIndexDefs(next);
        (r, [def] + more)
      else (next, [def])
  }

  function ParseSchema(p: State): (State, SchemaDef) {
    var p1 := Expect(ExpectKeyword(p, "table"), LeftParen);
    var p2 := Expect(ExpectKeyword(p1, "columns"), LeftParen);
    var (p3, columns) := ParseColumnDefs(p2);
    var p4 := Accept(Expect(p3, RightParen), Comma).0;
    var p5 := Expect(ExpectKeyword(p4, "indexes"), LeftParen);
    var (p6, indexes) := ParseIndexDefs(p5);
    var p7 := Accept(Expect(p6, RightParen), Comma).0;
    (Expect(p7, RightParen), SchemaDef(columns, indexes))
  }
}
