/** The rules of a schema file in tokens: what each form parses to, and which tokens are refused. */
module ParserFacts {
  import opened Ordering
  import opened Lexer
  import opened Parser

  const OPEN := Token(LeftParen, "(")
  const CLOSE := Token(RightParen, ")")
  const COMMA := Token(Comma, ",")

  function Word(s: string): Token {
    Token(Ident, s)
  }

  /** The state in front of some tokens and then the rest of a text. */
  function At(tokens: seq<Token>, rest: seq<Token>): State {
    State(tokens + rest, false)
  }

  ghost predicate NextIsFine(rest: seq<Token>) {
    rest != [] && rest[0].kind != Invalid
  }

  lemma Used(t: Token, more: seq<Token>, rest: seq<Token>)
    requires NextIsFine(more + rest)
    ensures Current(At([t] + more, rest)) == t && Advanced(At([t] + more, rest)) == At(more, rest)
  {
    assert ([t] + more + rest)[1..] == more + rest;
  }

  // ---------------------------------------------------------------- single tokens

  /** A token the lexer could not read is an error as soon as it is the current one; at the end the parser stays where it is. */
  lemma NextToken(t: Token, rest: seq<Token>, failed: bool)
    ensures rest != [] ==> Advanced(State([t] + rest, failed)) == State(rest, failed || rest[0].kind == Invalid)
    ensures Advanced(State([t], failed)) == State([t], failed || t.kind == Invalid)
  {
    assert ([t] + rest)[1..] == rest;
  }

  /** A token of another kind is left alone: when it is optional nothing happens, when it is needed that is an error. */
  lemma OtherToken(t: Token, rest: seq<Token>, kind: TokenKind, failed: bool)
    requires t.kind != kind
    ensures var p := State([t] + rest, failed);
      Accept(p, kind) == (p, false) && Expect(p, kind) == State([t] + rest, true)
  {
  }

  /** Keywords are identifiers: a quoted word or another spelling is none. */
  lemma KeywordRead(word: string, rest: seq<Token>)
    requires NextIsFine(rest)
    ensures AcceptKeyword(At([Word(word)], rest), word) == (State(rest, false), true)
    ensures ExpectKeyword(At([Word(word)], rest), word) == State(rest, false)
  {
    Used(Word(word), [], rest);
    assert [Word(word)] + [] == [Word(word)] && [] + rest == rest;
  }

  lemma NoKeyword(t: Token, rest: seq<Token>, word: string)
    requires t.kind != Ident || t.lexeme != word
    ensures var p := At([t], rest); AcceptKeyword(p, word) == (p, false) && ExpectKeyword(p, word) == State([t] + rest, true)
  {
  }

  /** A value is one number, string or hex literal, and anything else is an error. */
  lemma ValueRead(t: Token, rest: seq<Token>)
    requires NextIsFine(rest)
    ensures ParseValue(At([t], rest)) == match t.kind
      case Number => (State(rest, false), NumberLiteral(t.lexeme))
      case Text => (State(rest, false), StringLiteral(t.lexeme))
      case Hex => (State(rest, false), HexLiteral(t.lexeme))
      case _ => (State([t] + rest, true), NoLiteral)
  {
    Used(t, [], rest);
    assert [t] + [] == [t] && [] + rest == rest;
  }

  // ---------------------------------------------------------------- lengths

  /** `(20)` is a length, and without a parenthesis there is none. */
  lemma LengthRead(n: string, rest: seq<Token>)
    requires NextIsFine(rest)
    ensures ParseLength(At([OPEN, Token(Number, n), CLOSE], rest)) == (State(rest, false), Some(n))
    ensures rest[0].kind != LeftParen ==> ParseLength(State(rest, false)) == (State(rest, false), None)
  {
    hide Advanced;
    var num := Token(Number, n);
    assert [OPEN] + [num, CLOSE] == [OPEN, num, CLOSE] && [num] + [CLOSE] == [num, CLOSE] && [CLOSE] + [] == [CLOSE] && [] + rest == rest;
    Used(OPEN, [num, CLOSE], rest);
    Used(num, [CLOSE], rest);
    Used(CLOSE, [], rest);
  }

  /** `(x` and `(20 x` are errors whatever follows. */
  lemma NumberMissing(t: Token, rest: seq<Token>)
    requires t.kind != Number
    ensures ParseLength(State([OPEN, t] + rest, false)).0.failed
  {
    NextToken(OPEN, [t] + rest, false);
    assert [OPEN, t] + rest == [OPEN] + ([t] + rest);
    var q := State([t] + rest, t.kind == Invalid);
    OtherToken(t, rest, Number, q.failed);
    ExpectProgress(Expect(q, Number), RightParen);
    hide Advanced;
  }

  lemma CloseMissing(n: string, t: Token, rest: seq<Token>)
    requires t.kind != RightParen
    ensures ParseLength(State([OPEN, Token(Number, n), t] + rest, false)).0.failed
  {
    var num := Token(Number, n);
    NextToken(OPEN, [num, t] + rest, false);
    NextToken(num, [t] + rest, false);
    assert [OPEN, num, t] + rest == [OPEN] + ([num, t] + rest) && [num, t] + rest == [num] + ([t] + rest);
    OtherToken(t, rest, RightParen, t.kind == Invalid);
    hide Advanced;
  }

  // ---------------------------------------------------------------- columns and index definitions

  /** `a t`: a name and a type, without a length and without a default. */
  lemma PlainColumn(a: string, t: string, rest: seq<Token>)
    requires NextIsFine(rest) && rest[0].kind != LeftParen && rest[0] != Word("default")
    ensures ParseColumnDef(At([Word(a), Word(t)], rest)) == (State(rest, false), ColumnDef(a, TypeDef(t, None), None))
  {
    hide Advanced;
    assert [Word(a)] + [Word(t)] == [Word(a), Word(t)] && [Word(t)] + [] == [Word(t)] && [] + rest == rest;
    Used(Word(a), [Word(t)], rest);
    Used(Word(t), [], rest);
  }

  /** A column needs a name and a type, both identifiers. */
  lemma ColumnRefused(t: Token, a: string, rest: seq<Token>)
    requires t.kind != Ident
    ensures ParseColumnDef(At([t], rest)).0.failed && ParseColumnDef(At([Word(a), t], rest)).0.failed
  {
    Stuck(Expect(At([t], rest), Ident));
    var p := At([Word(a), t], rest);
    NextToken(Word(a), [t] + rest, false);
    assert p.rest == [Word(a)] + ([t] + rest);
    Stuck(Expect(p, Ident));
  }

  /** Once there is an error the rest of a column cannot undo it. */
  lemma Stuck(p: State)
    requires p.failed || Current(p).kind != Ident
    ensures var q := ParseLength(Expect(p, Ident)).0;
      q.failed && AcceptKeyword(q, "default").0.failed && ParseValue(AcceptKeyword(q, "default").0).0.failed
  {
    hide Advanced;
    ExpectProgress(p, Ident);
    LengthOnward(Expect(p, Ident));
    var q := ParseLength(Expect(p, Ident)).0;
    AdvancedOnward(q);
    ValueOnward(AcceptKeyword(q, "default").0);
  }

  /** A comma behind a column may be left out, and a last one may stay: `a t b u)` and `a t, b u,)` hold the same two columns. */
  lemma {:induction false} CommasLeftOut(a: string, t: string, b: string, u: string, rest: seq<Token>)
    requires b != "default"
    ensures ParseColumnDefs(At([Word(a), Word(t), Word(b), Word(u), CLOSE], rest))
      == (At([CLOSE], rest), [ColumnDef(a, TypeDef(t, None), None), ColumnDef(b, TypeDef(u, None), None)])
  {
    hide ParseColumnDefs;
    var more := [Word(b), Word(u), CLOSE];
    assert [Word(b), Word(u)] + [CLOSE] == more && [Word(a), Word(t)] + more == [Word(a), Word(t), Word(b), Word(u), CLOSE];
    NoColumns(rest);
    ColumnThen(b, u, [CLOSE], rest);
    ColumnThen(a, t, more, rest);
    var c, d := ColumnDef(a, TypeDef(t, None), None), ColumnDef(b, TypeDef(u, None), None);
    assert [d] + [] == [d] && [c] + [d] == [c, d];
  }

  lemma {:induction false} CommasPutIn(a: string, t: string, b: string, u: string, rest: seq<Token>)
    ensures ParseColumnDefs(At([Word(a), Word(t), COMMA, Word(b), Word(u), COMMA, CLOSE], rest))
      == (At([CLOSE], rest), [ColumnDef(a, TypeDef(t, None), None), ColumnDef(b, TypeDef(u, None), None)])
  {
    hide ParseColumnDefs;
    var last := [COMMA, CLOSE];
    var more := [COMMA, Word(b), Word(u), COMMA, CLOSE];
    assert [Word(b), Word(u)] + last == more[1..] && [Word(a), Word(t)] + more == [Word(a), Word(t), COMMA, Word(b), Word(u), COMMA, CLOSE];
    assert last[1..] == [CLOSE];
    NoColumns(rest);
    ColumnThen(b, u, last, rest);
    ColumnThen(a, t, more, rest);
    var c, d := ColumnDef(a, TypeDef(t, None), None), ColumnDef(b, TypeDef(u, None), None);
    assert [d] + [] == [d] && [c] + [d] == [c, d];
  }

  lemma NoColumns(rest: seq<Token>)
    ensures ParseColumnDefs(At([CLOSE], rest)) == (At([CLOSE], rest), [])
  {
  }

  lemma ColumnThen(a: string, t: string, more: seq<Token>, rest: seq<Token>)
    requires more != [] && more[0] != Word("default") && more[0].kind in {Ident, RightParen, Comma}
    requires more[0].kind == Comma ==> |more| > 1 && more[1].kind != Invalid
    ensures var after := At(if more[0].kind == Comma then more[1..] else more, rest);
      var (q, defs) := ParseColumnDefs(after);
      ParseColumnDefs(At([Word(a), Word(t)] + more, rest)) == (q, [ColumnDef(a, TypeDef(t, None), None)] + defs)
  {
    hide ParseColumnDef, Advanced;
    PlainColumn(a, t, more + rest);
    var p := At([Word(a), Word(t)] + more, rest);
    assert p == At([Word(a), Word(t)], more + rest);
    assert Going(p);
    var q := ParseColumnDef(p).0;
    assert q == At(more, rest);
    if more[0].kind == Comma {
      assert [more[0]] + more[1..] == more;
      Used(more[0], more[1..], rest);
    }
  }

  /** Key parts do need their commas: `a b` ends the list behind `a`, and a comma must be followed by a part. */
  lemma {:induction false} PartCommas(a: string, b: string, rest: seq<Token>)
    ensures ParseParts(At([Word(a), Word(b)], rest)) == (At([Word(b)], rest), [PartDef(a, None)])
    ensures ParseParts(At([Word(a), COMMA, Word(b), CLOSE], rest)) == (At([CLOSE], rest), [PartDef(a, None), PartDef(b, None)])
    ensures ParseParts(At([Word(a), COMMA, CLOSE], rest)).0.failed
  {
    hide ParsePart, Advanced;
    PlainPart(a, [Word(b)], rest);
    PlainPart(a, [COMMA, Word(b), CLOSE], rest);
    PlainPart(a, [COMMA, CLOSE], rest);
    PlainPart(b, [CLOSE], rest);
    assert [Word(a)] + [Word(b)] == [Word(a), Word(b)] && [Word(b)] + [CLOSE] == [Word(b), CLOSE];
    assert [Word(a)] + [COMMA, Word(b), CLOSE] == [Word(a), COMMA, Word(b), CLOSE];
    assert [COMMA] + [Word(b), CLOSE] == [COMMA, Word(b), CLOSE] && [COMMA] + [CLOSE] == [COMMA, CLOSE] && [Word(a)] + [COMMA, CLOSE] == [Word(a), COMMA, CLOSE];
    Used(COMMA, [Word(b), CLOSE], rest);
    Used(COMMA, [CLOSE], rest);
    assert ParseParts(At([Word(b), CLOSE], rest)) == (At([CLOSE], rest), [PartDef(b, None)]);
    assert [PartDef(a, None)] + [PartDef(b, None)] == [PartDef(a, None), PartDef(b, None)];
    PartRefused(CLOSE, rest);
  }

  lemma PlainPart(a: string, more: seq<Token>, rest: seq<Token>)
    requires more != [] && more[0].kind != LeftParen && more[0].kind != Invalid
    ensures ParsePart(At([Word(a)] + more, rest)) == (At(more, rest), PartDef(a, None))
  {
    Used(Word(a), more, rest);
  }

  lemma PartRefused(t: Token, rest: seq<Token>)
    requires t.kind != Ident
    ensures ParseParts(At([t], rest)).0.failed
  {
    Stuck(At([t], rest));
    PartsStick(At([t], rest));
  }

  /** An error in a list of parts stays. */
  lemma {:induction false} PartsStick(p: State)
    requires ParsePart(p).0.failed
    ensures ParseParts(p).0.failed
    decreases |p.rest|
  {
    hide ParsePart;
    var q := ParsePart(p).0;
    AcceptOnward(q, Comma);
    var (next, more) := Accept(q, Comma);
    if more && |next.rest| < |p.rest| {
      Stuck(next);
      ParsePartStuck(next);
      PartsStick(next);
    }
  }

  lemma ParsePartStuck(p: State)
    requires ParseLength(Expect(p, Ident)).0.failed
    ensures ParsePart(p).0.failed
  {
  }

  /** `btree unique i (a)` is a unique index and `btree i (a)` is not. */
  lemma {:induction false} UniqueIsAWord(kind: string, name: string, a: string, rest: seq<Token>)
    requires NextIsFine(rest) && name != "unique"
    ensures ParseIndexDef(At([Word(kind), Word("unique"), Word(name), OPEN, Word(a), CLOSE], rest))
      == (State(rest, false), IndexDef(kind, true, name, [PartDef(a, None)]))
    ensures ParseIndexDef(At([Word(kind), Word(name), OPEN, Word(a), CLOSE], rest))
      == (State(rest, false), IndexDef(kind, false, name, [PartDef(a, None)]))
  {
    hide Advanced, ParseParts;
    var named := [Word(name), OPEN, Word(a), CLOSE];
    assert [Word(kind)] + ([Word("unique")] + named) == [Word(kind), Word("unique"), Word(name), OPEN, Word(a), CLOSE];
    assert [Word(kind)] + named == [Word(kind), Word(name), OPEN, Word(a), CLOSE];
    Used(Word(kind), [Word("unique")] + named, rest);
    Used(Word("unique"), named, rest);
    Used(Word(kind), named, rest);
    OnePart(name, a, rest);
  }

  lemma {:induction false} OnePart(name: string, a: string, rest: seq<Token>)
    requires NextIsFine(rest)
    ensures var p := Expect(Expect(At([Word(name), OPEN, Word(a), CLOSE], rest), Ident), LeftParen);
      && ParseParts(p) == (At([CLOSE], rest), [PartDef(a, None)])
      && Expect(At([CLOSE], rest), RightParen) == State(rest, false)
  {
    hide Advanced, ParsePart;
    assert [Word(name)] + [OPEN, Word(a), CLOSE] == [Word(name), OPEN, Word(a), CLOSE] && [OPEN] + [Word(a), CLOSE] == [OPEN, Word(a), CLOSE];
    assert [Word(a)] + [CLOSE] == [Word(a), CLOSE] && [CLOSE] + [] == [CLOSE] && [] + rest == rest;
    Used(Word(name), [OPEN, Word(a), CLOSE], rest);
    Used(OPEN, [Word(a), CLOSE], rest);
    PlainPart(a, [CLOSE], rest);
    Used(CLOSE, [], rest);
  }
}
