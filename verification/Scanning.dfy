/** What the lexer reads, in plain characters: every token at the front of every text. */
module Scanning {
  import opened Lexer
  import opened SchemaTokens

  ghost predicate Letter(c: char) {
    'a' <= c <= 'z' || 'A' <= c <= 'Z'
  }

  ghost predicate Digit(c: char) {
    '0' <= c <= '9'
  }

  ghost predicate StartsWith(s: string, c: char) {
    s != "" && s[0] == c
  }

  ghost predicate AllDigits(s: string) {
    forall i :: 0 <= i < |s| ==> Digit(s[i])
  }

  // ---------------------------------------------------------------- nothing, and blanks

  lemma EmptyText()
    ensures Tokens("") == [Token(EndOfText, "")]
  {
  }

  lemma BlankSkipped(s: string)
    ensures Tokens(" " + s) == Tokens(s) && Tokens("\t" + s) == Tokens(s)
    ensures Tokens("\n" + s) == Tokens(s) && Tokens("\r" + s) == Tokens(s)
  {
    Blanks(" ", s);
    Blanks("\t", s);
    Blanks("\n", s);
    Blanks("\r", s);
  }

  // ---------------------------------------------------------------- symbols

  lemma OneChar(c: char, kind: TokenKind, s: string)
    requires !IsWhitespace(c) && TokenAt([c] + s) == (Token(kind, [c]), 1)
    ensures Tokens([c] + s) == [Token(kind, [c])] + Tokens(s)
  {
    FirstToken([c], s, Token(kind, [c]));
  }

  lemma TwoChars(c: char, kind: TokenKind, s: string)
    requires !IsWhitespace(c) && TokenAt([c, '='] + s) == (Token(kind, [c, '=']), 2)
    ensures Tokens([c, '='] + s) == [Token(kind, [c, '='])] + Tokens(s)
  {
    FirstToken([c, '='], s, Token(kind, [c, '=']));
  }

  lemma {:induction false} Punctuation(s: string)
    ensures Tokens("(" + s) == [Token(LeftParen, "(")] + Tokens(s)
    ensures Tokens(")" + s) == [Token(RightParen, ")")] + Tokens(s)
    ensures Tokens("," + s) == [Token(Comma, ",")] + Tokens(s)
  {
    hide Tokens;
    PlainSymbol('(', LeftParen, s);
    PlainSymbol(')', RightParen, s);
    PlainSymbol(',', Comma, s);
  }

  lemma {:induction false} OtherSymbols(s: string)
    ensures Tokens("*" + s) == [Token(Star, "*")] + Tokens(s)
    ensures Tokens(";" + s) == [Token(Semicolon, ";")] + Tokens(s)
    ensures Tokens("=" + s) == [Token(EqualsSign, "=")] + Tokens(s)
  {
    hide Tokens;
    PlainSymbol('*', Star, s);
    PlainSymbol(';', Semicolon, s);
    PlainSymbol('=', EqualsSign, s);
  }

  lemma PlainSymbol(c: char, kind: TokenKind, s: string)
    requires c in "(),*;=" && kind == SymbolKind(c)
    ensures Tokens([c] + s) == [Token(kind, [c])] + Tokens(s)
  {
    hide Tokens;
    FrontChar(c, s);
    OneChar(c, kind, s);
  }

  lemma FrontChar(c: char, s: string)
    ensures ([c] + s)[0] == c && ([c] + s)[..1] == [c] && CharAt([c] + s, 1) == (if s == "" then '\0' else s[0])
  {
  }

  /** Less, greater and the mark of negation, unless an equals sign follows. */
  lemma {:induction false} OpenSymbols(s: string)
    requires !StartsWith(s, '=')
    ensures Tokens("<" + s) == [Token(LessSign, "<")] + Tokens(s)
    ensures Tokens(">" + s) == [Token(GreaterSign, ">")] + Tokens(s)
    ensures Tokens("!" + s) == [Token(Invalid, "!")] + Tokens(s)
  {
    hide Tokens;
    FrontChar('<', s);
    FrontChar('>', s);
    FrontChar('!', s);
    OneChar('<', LessSign, s);
    OneChar('>', GreaterSign, s);
    OneChar('!', Invalid, s);
  }

  lemma {:induction false} DoubleSymbols(s: string)
    ensures Tokens("<=" + s) == [Token(LessOrEqualSign, "<=")] + Tokens(s)
    ensures Tokens(">=" + s) == [Token(GreatOrEqualSign, ">=")] + Tokens(s)
    ensures Tokens("!=" + s) == [Token(NotEqualsSign, "!=")] + Tokens(s)
  {
    hide Tokens;
    FrontTwo('<', s);
    FrontTwo('>', s);
    FrontTwo('!', s);
    TwoChars('<', LessOrEqualSign, s);
    TwoChars('>', GreatOrEqualSign, s);
    TwoChars('!', NotEqualsSign, s);
  }

  lemma FrontTwo(c: char, s: string)
    ensures ([c, '='] + s)[0] == c && ([c, '='] + s)[..2] == [c, '='] && CharAt([c, '='] + s, 1) == '='
  {
  }

  /** Any other character is a token the lexer does not know. */
  lemma {:induction false} UnknownCharacter(c: char, s: string)
    requires !Letter(c) && !Digit(c) && c !in " \t\n\r\"()<>,*;=!"
    ensures Tokens([c] + s) == [Token(Invalid, [c])] + Tokens(s)
  {
    hide Tokens;
    FrontChar(c, s);
    assert forall k :: 0 <= k < |" \t\n\r\"()<>,*;=!"| ==> c != " \t\n\r\"()<>,*;=!"[k];
    Different(c);
    OneChar(c, Invalid, s);
  }

  lemma Different(c: char)
    requires c !in " \t\n\r\"()<>,*;=!"
    ensures c != ' ' && c != '\t' && c != '\n' && c != '\r' && c != '"' && c != '(' && c != ')' && c != '<' && c != '>'
    ensures c != ',' && c != '*' && c != ';' && c != '=' && c != '!'
  {
    var all := " \t\n\r\"()<>,*;=!";
    assert all[0] == ' ' && all[1] == '\t' && all[2] == '\n' && all[3] == '\r' && all[4] == '"' && all[5] == '(' && all[6] == ')';
    assert all[7] == '<' && all[8] == '>' && all[9] == ',' && all[10] == '*' && all[11] == ';' && all[12] == '=' && all[13] == '!';
  }

  // ---------------------------------------------------------------- words, numbers, hex literals and strings

  /** An identifier: a letter, then letters, digits and underscores, up to the first other character. */
  lemma {:induction false} WordRead(w: string, s: string)
    requires w != "" && Letter(w[0]) && forall i :: 0 <= i < |w| ==> Letter(w[i]) || Digit(w[i]) || w[i] == '_'
    requires s == "" || !(Letter(s[0]) || Digit(s[0]) || s[0] == '_')
    ensures Tokens(w + s) == [Token(Ident, w)] + Tokens(s)
  {
    Word(w, s);
  }

  /** A whole number ends before the first character that is neither a digit nor a dot. */
  lemma {:induction false} WholeNumberRead(d: string, s: string)
    requires d != "" && AllDigits(d) && (s == "" || (!Digit(s[0]) && s[0] != '.' && s[0] != 'x'))
    ensures Tokens(d + s) == [Token(Number, d)] + Tokens(s)
  {
    NumberToken(d, s);
  }

  lemma {:induction false} PointedSpan(d: string, e: string, s: string)
    requires AllDigits(d) && AllDigits(e) && (s == "" || !Digit(s[0]))
    ensures NumberSpan(d + ("." + (e + s)), false) == |d| + 1 + |e|
    decreases |d|
  {
    var t := d + ("." + (e + s));
    if d == "" {
      assert t == "." + (e + s) && t[1..] == e + s;
      FractionSpan(e, s);
    } else {
      assert t[1..] == d[1..] + ("." + (e + s));
      PointedSpan(d[1..], e, s);
    }
  }

  lemma {:induction false} FractionSpan(e: string, s: string)
    requires AllDigits(e) && (s == "" || !Digit(s[0]))
    ensures NumberSpan(e + s, true) == |e|
    decreases |e|
  {
    if e == "" {
      assert e + s == s;
    } else {
      assert (e + s)[1..] == e[1..] + s;
      FractionSpan(e[1..], s);
    }
  }

  /** A number with a dot ends before the first character behind it that is no digit, a second dot included. */
  lemma {:induction false} PointedNumberRead(d: string, e: string, s: string)
    requires d != "" && AllDigits(d) && AllDigits(e) && (s == "" || !Digit(s[0]))
    ensures Tokens((d + "." + e) + s) == [Token(Number, d + "." + e)] + Tokens(s)
  {
    var w := d + "." + e;
    var t := w + s;
    assert t[1..] == d[1..] + ("." + (e + s));
    PointedSpan(d[1..], e, s);
    assert t[0] == d[0] && CharAt(t, 1) != 'x';
    CutText(w, s);
    hide NumberSpan, Tokens;
    assert |w| == 1 + (|d[1..]| + 1 + |e|);
    FirstToken(w, s, Token(Number, w));
  }

  /** A digit and an x, then hex digits in lower case: the token is what follows the mark, and unknown if nothing does. */
  lemma {:induction false} HexRead(d: char, h: string, s: string)
    requires Digit(d) && forall i :: 0 <= i < |h| ==> Digit(h[i]) || 'a' <= h[i] <= 'f'
    requires s == "" || !(Digit(s[0]) || 'a' <= s[0] <= 'f')
    ensures Tokens(([d, 'x'] + h) + s) == [Token(if h == "" then Invalid else Hex, h)] + Tokens(s)
  {
    var w := [d, 'x'] + h;
    var t := w + s;
    assert t[2..] == h + s && t[0] == d && CharAt(t, 1) == 'x';
    SpanTo(h, s, IsHexDigit);
    assert t[2..2 + |h|] == h;
    FirstToken(w, s, Token(if h == "" then Invalid else Hex, h));
  }

  /** What stands between double quotes, taken as it is; without the closing one, an unknown token to the end of the text. */
  lemma {:induction false} StringRead(t: string, s: string)
    requires forall i :: 0 <= i < |t| ==> t[i] != '"'
    ensures Tokens(("\"" + t + "\"") + s) == [Token(Text, t)] + Tokens(s)
    ensures Tokens("\"" + t) == [Token(Invalid, t), Token(EndOfText, "")]
  {
    TextToken(t, s);
    var w := "\"" + t;
    assert w + "" == w && t + "" == t && w[1..] == t;
    SpanTo(t, "", NotQuote);
    FirstToken(w, "", Token(Invalid, t));
    EmptyText();
  }
}
