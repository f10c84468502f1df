/** The parser at work on a reader: each method does what its rule says, on every text. */
module ParserMethods {
  import opened Ordering
  import opened Lexer
  import P = Parser
  import opened Parser

  lemma {:induction false} TokensEnd(s: string)
    ensures forall i :: 0 <= i < |Tokens(s)| ==> (Tokens(s)[i].kind == EndOfText <==> i == |Tokens(s)| - 1)
    decreases |s|
  {
    var t := SkipBlanks(s);
    TokenKinds(t);
    if t == [] {
      EmptyToken();
    } else {
      TokensEnd(t[TokenAt(t).1..]);
    }
  }

  lemma EndOfTokens(s: string)
    ensures s == "" ==> Tokens(s) == [Token(EndOfText, "")]
  {
  }

  /** What parser_next leaves of the tokens. */
  lemma RestOf(p: P.State, left: seq<Token>)
    requires WellEnded(p) && p.rest[1..] == (if p.rest[0].kind == EndOfText then [] else left) && |left| > 0
    ensures p.rest[0].kind == EndOfText ==> Advanced(p).rest == p.rest == [p.rest[0]]
    ensures p.rest[0].kind != EndOfText ==> Advanced(p).rest == left
  {
  }

  /** The result of a list loop, part of it collected and the rest still to come. */
  ghost predicate SoFar<T>(whole: (P.State, seq<T>), done: seq<T>, todo: (P.State, seq<T>)) {
    whole.0 == todo.0 && whole.1 == done + todo.1
  }

  lemma StartList<T>(whole: (P.State, seq<T>))
    ensures SoFar(whole, [], whole)
  {
  }

  lemma OneMore<T>(whole: (P.State, seq<T>), done: seq<T>, x: T, todo: (P.State, seq<T>))
    requires SoFar(whole, done, (todo.0, [x] + todo.1))
    ensures SoFar(whole, done + [x], todo)
  {
  }

  lemma LastOne<T>(whole: (P.State, seq<T>), done: seq<T>, x: T, end: P.State)
    requires SoFar(whole, done, (end, [x]))
    ensures whole == (end, done + [x])
  {
  }

  lemma EndList<T>(whole: (P.State, seq<T>), done: seq<T>, end: P.State)
    requires SoFar(whole, done, (end, []))
    ensures whole == (end, done)
  {
    assert whole == (whole.0, whole.1) && done + [] == done;
  }

  class SchemaParser {
    const reader: Reader
    var current: Token
    var failed: bool
    /** The tokens not consumed yet, the current one first. */
    ghost var rest: seq<Token>

    ghost predicate Valid()
      reads this, reader
    {
      && reader.Valid() && WellEnded(P.State(rest, failed)) && |rest| > 0 && rest[0] == current
      && rest[1..] == (if current.kind == EndOfText then [] else Tokens(reader.input[reader.pos..]))
      && (current.kind == EndOfText ==> reader.pos == |reader.input| && current.lexeme == "")
    }

    ghost function State(): P.State
      reads this
    {
      P.State(rest, failed)
    }

    /** parser_init. */
    constructor (input: string)
      ensures Valid() && fresh(reader)
      ensures State() == P.State(Tokens(input), Tokens(input)[0].kind == Invalid)
    {
      reader := new Reader(input);
      new;
      assert input[0..] == input;
      TokensEnd(input);
      var token := reader.Next();
      rest, failed := Tokens(input), token.kind == Invalid;
      current := token;
    }

    /** parser_set_error. */
    method SetError()
      requires Valid()
      modifies this`failed
      ensures Valid() && State() == Fail(old(State()))
    {
      failed := true;
    }

    /** parser_next. */
    method Next()
      requires Valid()
      modifies this, reader
      ensures Valid() && State() == Advanced(old(State()))
    {
      hide Tokens;
      AdvancedOnward(State());
      ghost var before := State();
      ghost var left := Tokens(reader.input[reader.pos..]);
      EndOfTokens(reader.input[reader.pos..]);
      RestOf(before, left);
      assert current.kind == EndOfText ==> reader.input[reader.pos..] == "";
      current := reader.Next();
      if current.kind == Invalid {
        failed := true;
      }
      rest := Advanced(before).rest;
    }

    method Accept(kind: TokenKind) returns (accepted: bool)
      requires Valid()
      modifies this, reader
      ensures Valid() && (State(), accepted) == P.Accept(old(State()), kind)
    {
      hide Advanced;
      accepted := current.kind == kind;
      if accepted {
        Next();
      }
    }

    method Expect(kind: TokenKind)
      requires Valid()
      modifies this, reader
      ensures Valid() && State() == P.Expect(old(State()), kind)
    {
      hide Advanced, Valid;
      var accepted := Accept(kind);
      if !accepted {
        SetError();
      }
    }

    method AcceptKeyword(keyword: string) returns (accepted: bool)
      requires Valid()
      modifies this, reader
      ensures Valid() && (State(), accepted) == P.AcceptKeyword(old(State()), keyword)
    {
      hide Advanced;
      if current.kind != Ident || current.lexeme != keyword {
        return false;
      }
      Next();
      return true;
    }

    method ExpectKeyword(keyword: string)
      requires Valid()
      modifies this, reader
      ensures Valid() && State() == P.ExpectKeyword(old(State()), keyword)
    {
      hide Advanced, Valid;
      var accepted := AcceptKeyword(keyword);
      if !accepted {
        SetError();
      }
    }

    /** parse_ident, parse_number and the like: the lexeme at hand, which must be of one kind. */
    method Take(kind: TokenKind) returns (lexeme: string)
      requires Valid()
      modifies this, reader
      ensures Valid() && State() == P.Expect(old(State()), kind) && lexeme == P.Current(old(State())).lexeme
    {
      lexeme := current.lexeme;
      Expect(kind);
    }

    method ParseValue() returns (value: RawValue)
      requires Valid()
      modifies this, reader
      ensures Valid() && (State(), value) == P.ParseValue(old(State()))
    {
      hide Advanced;
      if current.kind == Number {
        var text := Take(Number);
        return NumberLiteral(text);
      }
      if current.kind == Text {
        var text := Take(Text);
        return StringLiteral(text);
      }
      if current.kind == Hex {
        var text := Take(Hex);
        return HexLiteral(text);
      }
      SetError();
      return NoLiteral;
    }

    method ParseLength() returns (len: Option<string>)
      requires Valid()
      modifies this, reader
      ensures Valid() && (State(), len) == P.ParseLength(old(State()))
    {
      hide Advanced, P.Expect;
      len := None;
      var has := Accept(LeftParen);
      if has {
        var text := Take(Number);
        Expect(RightParen);
        len := Some(text);
      }
    }

    method ParseColumnDef() returns (def: ColumnDef)
      requires Valid()
      modifies this, reader
      ensures Valid() && (State(), def) == P.ParseColumnDef(old(State()))
    {
      hide Advanced, P.Expect, P.ParseLength, P.ParseValue;
      var name := Take(Ident);
      var typeName := Take(Ident);
      var len := ParseLength();
      var has := AcceptKeyword("default");
      var value := None;
      if has {
        var v := ParseValue();
        value := Some(v);
      }
      return ColumnDef(name, TypeDef(typeName, len), value);
    }

    method ParsePart() returns (part: PartDef)
      requires Valid()
      modifies this, reader
      ensures Valid() && (State(), part) == P.ParsePart(old(State()))
    {
      hide Advanced, P.Expect, P.ParseLength;
      var name := Take(Ident);
      var len := ParseLength();
      return PartDef(name, len);
    }

    /** The loop ends on every text: a round that uses up no token has failed. */
    method ParseColumnDefs() returns (defs: seq<ColumnDef>)
      requires Valid()
      modifies this, reader
      ensures Valid() && (State(), defs) == P.ParseColumnDefs(old(State()))
    {
      hide Advanced, P.ParseColumnDef, P.Accept, WellEnded, P.ParseColumnDefs, SoFar;
      ghost var whole := P.ParseColumnDefs(State());
      defs := [];
      StartList(whole);
      while current.kind != RightParen && !failed
        invariant Valid()
        invariant SoFar(whole, defs, P.ParseColumnDefs(State()))
        decreases !failed, |rest|
      {
        ColumnsStep(State());
        var def := ParseColumnDef();
        var comma := Accept(Comma);
        OneMore(whole, defs, def, P.ParseColumnDefs(State()));
        defs := defs + [def];
      }
      ColumnsStop(State());
      EndList(whole, defs, State());
    }

    /** At least one part; ends because every further one costs a comma. */
    method ParseParts() returns (parts: seq<PartDef>)
      requires Valid()
      modifies this, reader
      ensures Valid() && (State(), parts) == P.ParseParts(old(State()))
    {
      hide Advanced, P.ParsePart, P.Accept, WellEnded, P.ParseParts, SoFar;
      ghost var whole := P.ParseParts(State());
      parts := [];
      StartList(whole);
      while true
        invariant Valid()
        invariant SoFar(whole, parts, P.ParseParts(State()))
        decreases |rest|
      {
        PartsStep(State());
        var part := ParsePart();
        var more := Accept(Comma);
        if !more {
          LastOne(whole, parts, part, State());
          parts := parts + [part];
          return;
        }
        OneMore(whole, parts, part, P.ParseParts(State()));
        parts := parts + [part];
      }
    }

    method ParseIndexDef() returns (def: IndexDef)
      requires Valid()
      modifies this, reader
      ensures Valid() && (State(), def) == P.ParseIndexDef(old(State()))
    {
      hide Advanced, P.Expect, P.ParseParts, WellEnded;
      var typeName := Take(Ident);
      var unique := AcceptKeyword("unique");
      var name := Take(Ident);
      Expect(LeftParen);
      var parts := ParseParts();
      Expect(RightParen);
      return IndexDef(typeName, unique, name, parts);
    }

    method ParseIndexDefs() returns (defs: seq<IndexDef>)
      requires Valid()
      modifies this, reader
      ensures Valid() && (State(), defs) == P.ParseIndexDefs(old(State()))
    {
      hide Advanced, P.ParseIndexDef, P.Accept, WellEnded, P.ParseIndexDefs, SoFar;
      ghost var whole := P.ParseIndexDefs(State());
      defs := [];
      StartList(whole);
      while current.kind != RightParen && !failed
        invariant Valid()
        invariant SoFar(whole, defs, P.ParseIndexDefs(State()))
        decreases !failed, |rest|
      {
        IndexesStep(State());
        var def := ParseIndexDef();
        var comma := Accept(Comma);
        OneMore(whole, defs, def, P.ParseIndexDefs(State()));
        defs := defs + [def];
      }
      IndexesStop(State());
      EndList(whole, defs, State());
    }

    /** parse_schema. */
    method ParseSchema() returns (schema: SchemaDef)
      requires Valid()
      modifies this, reader
      ensures Valid() && (State(), schema) == P.ParseSchema(old(State()))
    {
      hide Advanced, P.Expect, P.ExpectKeyword, P.Accept, P.ParseColumnDefs, P.ParseIndexDefs, WellEnded;
      ExpectKeyword("table");
      Expect(LeftParen);
      ExpectKeyword("columns");
      Expect(LeftParen);
      var columns := ParseColumnDefs();
      Expect(RightParen);
      var comma := Accept(Comma);
      ExpectKeyword("indexes");
      Expect(LeftParen);
      var indexes := ParseIndexDefs();
      Expect(RightParen);
      comma := Accept(Comma);
      Expect(RightParen);
      return SchemaDef(columns, indexes);
    }
  }

  // ---------------------------------------------------------------- one round of each loop

  lemma ColumnsStep(p: State)
    requires WellEnded(p) && Going(p)
    ensures var (q, def) := P.ParseColumnDef(p);
      var next := P.Accept(q, Comma).0;
      && (next.failed || |next.rest| < |p.rest|)
      && P.ParseColumnDefs(p) == (P.ParseColumnDefs(next).0, [def] + P.ParseColumnDefs(next).1)
  {
    hide P.ParseColumnDef, P.Accept, WellEnded;
    ColumnProgress(p);
    AcceptOnward(P.ParseColumnDef(p).0, Comma);
  }

  lemma ColumnsStop(p: State)
    requires !Going(p)
    ensures P.ParseColumnDefs(p) == (p, [])
  {
  }

  lemma PartsStep(p: State)
    requires WellEnded(p)
    ensures var (q, part) := P.ParsePart(p);
      var (next, more) := P.Accept(q, Comma);
      && (more ==> |next.rest| < |p.rest|)
      && P.ParseParts(p) == if more then (P.ParseParts(next).0, [part] + P.ParseParts(next).1) else (next, [part])
  {
    hide P.ParsePart, P.Accept, WellEnded;
    PartProgress(p);
    AcceptOnward(P.ParsePart(p).0, Comma);
  }

  lemma {:induction false} PartsOnward(p: State)
    requires WellEnded(p)
    ensures Onward(p, P.ParseParts(p).0) && WellEnded(P.ParseParts(p).0)
    decreases |p.rest|
  {
    hide P.ParsePart, P.Accept, WellEnded;
    PartsStep(p);
    PartProgress(p);
    AcceptOnward(P.ParsePart(p).0, Comma);
    var (next, more) := P.Accept(P.ParsePart(p).0, Comma);
    if more { PartsOnward(next); }
  }

  lemma IndexProgress(p: State)
    requires WellEnded(p)
    ensures Progress(p, P.ParseIndexDef(p).0) && WellEnded(P.ParseIndexDef(p).0)
  {
    hide WellEnded, Advanced, P.Expect, P.ParseParts;
    var afterType := P.Expect(p, Ident);
    var q := P.AcceptKeyword(afterType, "unique").0;
    var r := P.Expect(P.Expect(q, Ident), LeftParen);
    ExpectProgress(p, Ident);
    AdvancedOnward(afterType);
    ExpectProgress(q, Ident);
    ExpectProgress(P.Expect(q, Ident), LeftParen);
    PartsOnward(r);
    ExpectProgress(P.ParseParts(r).0, RightParen);
  }

  lemma IndexesStep(p: State)
    requires WellEnded(p) && Going(p)
    ensures var (q, def) := P.ParseIndexDef(p);
      var next := P.Accept(q, Comma).0;
      && (next.failed || |next.rest| < |p.rest|)
      && P.ParseIndexDefs(p) == (P.ParseIndexDefs(next).0, [def] + P.ParseIndexDefs(next).1)
  {
    hide P.ParseIndexDef, P.Accept, WellEnded;
    IndexProgress(p);
    AcceptOnward(P.ParseIndexDef(p).0, Comma);
  }

  lemma IndexesStop(p: State)
    requires !Going(p)
    ensures P.ParseIndexDefs(p) == (p, [])
  {
  }
}
