/** Characters into tokens: what one token is, and the reader that advances over them. */
module Lexer {

  datatype TokenKind =
    | EndOfText | Ident | Number | Hex | Text | LeftParen | RightParen | Comma | Star | Semicolon
    | EqualsSign | NotEqualsSign | LessSign | GreaterSign | LessOrEqualSign | GreatOrEqualSign | Invalid

  datatype Token = Token(kind: TokenKind, lexeme: string)

  predicate IsIdentStart(c: char) {
    'a' <= c <= 'z' || 'A' <= c <= 'Z'
  }

  predicate IsDigit(c: char) {
    '0' <= c <= '9'
  }

  predicate IsIdent(c: char) {
    IsIdentStart(c) || IsDigit(c) || c == '_'
  }

  predicate IsWhitespace(c: char) {
    c == ' ' || c == '\t' || c == '\n' || c == '\r'
  }

  predicate IsHexDigit(c: char) {
    IsDigit(c) || 'a' <= c <= 'f'
  }

  predicate NotQuote(c: char) {
    c != '"'
  }

  /** How many characters at the front satisfy a test. */
  function Span(s: string, test: char -> bool): (n: nat)
    ensures n <= |s|
  {
    if s == [] || !test(s[0]) then 0 else 1 + Span(s[1..], test)
  }

  /** How many characters a number takes: digits, and at most one dot. */
  function NumberSpan(s: string, hasDot: bool): (n: nat)
    ensures n <= |s|
  {
    if s == [] then 0
    else if IsDigit(s[0]) then 1 + NumberSpan(s[1..], hasDot)
    else if s[0] == '.' && !hasDot then 1 + NumberSpan(s[1..], true)
    else 0
  }

  /** The character at a place; past the end, the zero that ends a C string. */
  function CharAt(s: string, i: nat): char {
    if i < |s| then s[i] else '\0'
  }

  function TwoCharSymbol(c: char, d: char): TokenKind {
    if c == '>' && d == '=' then GreatOrEqualSign
    else if c == '<' && d == '=' then LessOrEqualSign
    else if c == '!' && d == '=' then NotEqualsSign
    else Invalid
  }

  function SymbolKind(c: char): TokenKind {
    match c
    case '<' => LessSign
    case '>' => GreaterSign
    case '(' => LeftParen
    case ')' => RightParen
    case ',' => Comma
    case '*' => Star
    case ';' => Semicolon
    case '=' => EqualsSign
    case _ => Invalid
  }

  /** What one call reads from a text: the token, and how many characters are used up after the blanks. */
  function TokenAt(s: string): (r: (Token, nat))
    ensures r.1 <= |s| && (s != [] ==> r.1 > 0)
  {
    if s == [] then (Token(EndOfText, ""), 0)
    else if IsIdentStart(s[0]) then
      var n := 1 + Span(s[1..], IsIdent);
      (Token(Ident, s[..n]), n)
    else if IsDigit(s[0]) then
      if CharAt(s, 1) == 'x' then
        var n := Span(s[2..], IsHexDigit);
        (Token(if n == 0 then Invalid else Hex, s[2..2 + n]), 2 + n)
      else
        var n := 1 + NumberSpan(s[1..], false);
        (Token(Number, s[..n]), n)
    else if s[0] == '"' then
      var n := Span(s[1..], NotQuote);
      if 1 + n == |s| then (Token(Invalid, s[1..]), |s|) else (Token(Text, s[1..1 + n]), n + 2)
    else if TwoCharSymbol(s[0], CharAt(s, 1)) != Invalid then
      (Token(TwoCharSymbol(s[0], CharAt(s, 1)), s[..2]), 2)
    else (Token(SymbolKind(s[0]), s[..1]), 1)
  }

  function SkipBlanks(s: string): string {
    s[Span(s, IsWhitespace)..]
  }

  /** All tokens of a text, the end included. */
  function Tokens(s: string): (r: seq<Token>)
    ensures |r| > 0
    decreases |s|
  {
    var t := SkipBlanks(s);
    var (token, n) := TokenAt(t);
    if t == [] then [token] else [token] + Tokens(t[n..])
  }

  // ---------------------------------------------------------------- the reader

  class Reader {
    const input: string
    var pos: nat

    ghost predicate Valid()
      reads this
    {
      pos <= |input|
    }

    constructor (input: string)
      ensures Valid() && this.input == input && pos == 0
    {
      this.input, pos := input, 0;
    }

    /** Moves on while a test holds. */
    method Advance(test: char -> bool)
      requires Valid()
      modifies this
      ensures Valid() && pos == old(pos) + Span(input[old(pos)..], test)
    {
      while pos < |input| && test(input[pos])
        invariant old(pos) <= pos <= |input|
        invariant old(pos) + Span(input[old(pos)..], test) == pos + Span(input[pos..], test)
      {
        assert input[pos..][1..] == input[pos + 1..];
        pos := pos + 1;
      }
    }

    method ReadIdent() returns (token: Token)
      requires Valid() && pos < |input| && IsIdentStart(input[pos])
      modifies this
      ensures Valid() && (token, pos - old(pos)) == TokenAt(input[old(pos)..])
    {
      var start := pos;
      assert input[start..][1..] == input[start + 1..];
      Advance(IsIdent);
      Slice(input, start, pos);
      return Token(Ident, input[start..pos]);
    }

    method ReadNumber() returns (token: Token)
      requires Valid() && pos < |input| && IsDigit(input[pos]) && CharAt(input[pos..], 1) != 'x'
      modifies this
      ensures Valid() && (token, pos - old(pos)) == TokenAt(input[old(pos)..])
    {
      var hasDot := false;
      var start := pos;
      assert input[start..][1..] == input[start + 1..];
      while pos < |input| && (IsDigit(input[pos]) || input[pos] == '.')
        invariant start <= pos <= |input|
        invariant start + NumberSpan(input[start..], false) == pos + NumberSpan(input[pos..], hasDot)
      {
        assert input[pos..][1..] == input[pos + 1..];
        if input[pos] == '.' {
          if hasDot {
            break;
          }
          hasDot := true;
        }
        pos := pos + 1;
      }
      Slice(input, start, pos);
      return Token(Number, input[start..pos]);
    }

    method ReadHex() returns (token: Token)
      requires Valid() && pos < |input| && IsDigit(input[pos]) && CharAt(input[pos..], 1) == 'x'
      modifies this
      ensures Valid() && (token, pos - old(pos)) == TokenAt(input[old(pos)..])
    {
      ghost var s := input[pos..];
      pos := pos + 2;
      var start := pos;
      assert s[2..] == input[start..];
      Advance(IsHexDigit);
      assert input[start..pos] == s[2..2 + (pos - start)];
      return Token(if pos == start then Invalid else Hex, input[start..pos]);
    }

    method ReadString() returns (token: Token)
      requires Valid() && pos < |input| && input[pos] == '"'
      modifies this
      ensures Valid() && (token, pos - old(pos)) == TokenAt(input[old(pos)..])
    {
      ghost var s := input[pos..];
      pos := pos + 1;
      var start := pos;
      assert s[1..] == input[start..];
      Advance(NotQuote);
      assert input[start..pos] == s[1..1 + (pos - start)];
      if pos == |input| {
        assert s[1..1 + (pos - start)] == s[1..];
        return Token(Invalid, input[start..pos]);
      }
      token := Token(Text, input[start..pos]);
      SpanStops(input[start..], NotQuote);
      pos := pos + 1;
    }

    method ReadSymbol() returns (token: Token)
      requires Valid() && pos < |input| && !IsIdentStart(input[pos]) && !IsDigit(input[pos]) && input[pos] != '"'
      modifies this
      ensures Valid() && (token, pos - old(pos)) == TokenAt(input[old(pos)..])
    {
      ghost var s := input[pos..];
      var kind := TwoCharSymbol(input[pos], CharAt(input, pos + 1));
      if kind != Invalid {
        assert input[pos..pos + 2] == s[..2];
        token := Token(kind, input[pos..pos + 2]);
        pos := pos + 2;
        return;
      }
      assert input[pos..pos + 1] == s[..1];
      token := Token(SymbolKind(input[pos]), input[pos..pos + 1]);
      pos := pos + 1;
    }

    /** The reader for the character at hand. */
    method ReadToken() returns (token: Token)
      requires Valid() && pos < |input|
      modifies this
      ensures Valid() && (token, pos - old(pos)) == TokenAt(input[old(pos)..])
    {
      hide TokenAt;
      if IsIdentStart(input[pos]) {
        token := ReadIdent();
      } else if IsDigit(input[pos]) {
        if CharAt(input, pos + 1) == 'x' {
          token := ReadHex();
        } else {
          token := ReadNumber();
        }
      } else if input[pos] == '"' {
        token := ReadString();
      } else {
        token := ReadSymbol();
      }
    }

    /** lexer_next: the first token of what is left, the rest still to be read. */
    method Next() returns (token: Token)
      requires Valid()
      modifies this
      ensures Valid()
      ensures old(Tokens(input[pos..])) == if token.kind == EndOfText then [token] else [token] + Tokens(input[pos..])
      ensures token.kind == EndOfText ==> pos == |input| && token.lexeme == ""
    {
      hide TokenAt;
      ghost var before := input[pos..];
      Advance(IsWhitespace);
      assert input[pos..] == SkipBlanks(before);
      TokenKinds(input[pos..]);
      if pos == |input| {
        EmptyToken();
        return Token(EndOfText, "");
      }
      ghost var s, at := input[pos..], pos;
      token := ReadToken();
      assert s[pos - at..] == input[pos..];
    }
  }

  lemma {:induction false} SpanStops(s: string, test: char -> bool)
    ensures Span(s, test) < |s| ==> !test(s[Span(s, test)])
    decreases |s|
  {
    if s != [] && test(s[0]) { SpanStops(s[1..], test); }
  }

  lemma {:induction false} SpanHolds(s: string, test: char -> bool)
    ensures forall i :: 0 <= i < Span(s, test) ==> test(s[i])
    decreases |s|
  {
    if s != [] && test(s[0]) {
      SpanHolds(s[1..], test);
      assert forall i :: 0 < i < |s| ==> s[i] == s[1..][i - 1];
    }
  }

  /** An identifier, a hex literal and a string each run as far as they can: to the first character that cannot go on. */
  lemma {:induction false} TokensRunOn(s: string)
    requires s != []
    ensures var (t, n) := TokenAt(s);
      && (IsIdentStart(s[0]) ==>
            t == Token(Ident, s[..n]) && (forall i :: 0 <= i < n ==> IsIdent(s[i])) && (n < |s| ==> !IsIdent(s[n])))
      && (IsDigit(s[0]) && CharAt(s, 1) == 'x' && n > 2 ==>
            t == Token(Hex, s[2..n]) && (forall i :: 2 <= i < n ==> IsHexDigit(s[i])) && (n < |s| ==> !IsHexDigit(s[n])))
      && (s[0] == '"' && t.kind == Text ==>
            n >= 2 && t.lexeme == s[1..n - 1] && s[n - 1] == '"' && forall i :: 1 <= i < n - 1 ==> s[i] != '"')
      && (s[0] == '"' && t.kind != Text ==> t.kind == Invalid && n == |s| && forall i :: 1 <= i < n ==> s[i] != '"')
  {
    SpanRuns(s, 1, IsIdent);
    SpanRuns(s, 1, NotQuote);
    if CharAt(s, 1) == 'x' { SpanRuns(s, 2, IsHexDigit); }
    hide Span;
  }

  lemma SpanRuns(s: string, from: nat, test: char -> bool)
    requires from <= |s|
    ensures var n := from + Span(s[from..], test);
      n <= |s| && (forall i :: from <= i < n ==> test(s[i])) && (n < |s| ==> !test(s[n]))
  {
    SpanHolds(s[from..], test);
    SpanStops(s[from..], test);
    assert forall i :: from <= i < |s| ==> s[i] == s[from..][i - from];
  }

  lemma Slice(s: string, i: nat, j: nat)
    requires i <= j <= |s|
    ensures s[i..j] == s[i..][..j - i]
  {
  }

  lemma TokenKinds(s: string)
    ensures s != [] ==> TokenAt(s).0.kind != EndOfText
  {
  }

  lemma EmptyToken()
    ensures TokenAt("") == (Token(EndOfText, ""), 0)
  {
  }
}
