/** Values as literals in a schema file, and back. */
module Literals {
  import opened Ordering
  import opened Values
  import opened KeyOrder
  import Lexer

  // ---------------------------------------------------------------- numbers

  function DigitChar(d: nat): char
    requires d < 10
  {
    (d + '0' as int) as char
  }

  function DigitValue(c: char): (d: nat)
    ensures Lexer.IsDigit(c) ==> d < 10
  {
    if Lexer.IsDigit(c) then c as int - '0' as int else 0
  }

  /** A number in decimal. */
  function Digits(n: nat): (s: string)
    ensures |s| > 0
  {
    if n < 10 then [DigitChar(n)] else Digits(n / 10) + [DigitChar(n % 10)]
  }

  /** format_int. */
  function FormatInt(n: int): string {
    if n < 0 then "-" + Digits(-n) else Digits(n)
  }

  /** The number that a run of digits stands for. */
  function Decimal(s: string): nat {
    if s == [] then 0 else 10 * Decimal(s[..|s| - 1]) + DigitValue(s[|s| - 1])
  }

  datatype ConvertError = NotANumber | OutOfRange | TooLong | BadHex | UnknownLiteral | FloatLiteral

  datatype Converted = Converted(value: DataValue) | Refused(error: ConvertError)

  /** convert_int: at most 15 characters are looked at; what follows the leading digits is an error. */
  function ConvertInt(text: string): Converted {
    var buf := if |text| > 15 then text[..15] else text;
    var n := Lexer.Span(buf, Lexer.IsDigit);
    var value := Decimal(buf[..n]);
    if value >= 0x8000_0000 then Refused(OutOfRange)
    else if n < |buf| then Refused(NotANumber)
    else Converted(IntVal(value))
  }

  lemma {:induction false} DigitsAreDigits(n: nat)
    ensures forall i :: 0 <= i < |Digits(n)| ==> Lexer.IsDigit(Digits(n)[i])
    ensures Decimal(Digits(n)) == n
    decreases n
  {
    if n >= 10 {
      DigitsAreDigits(n / 10);
      var s := Digits(n);
      assert s[..|s| - 1] == Digits(n / 10);
    } else {
      assert Digits(n)[..0] == [];
    }
  }

  lemma {:induction false} DigitsLength(n: nat, k: nat)
    requires k > 0 && n < Power10(k)
    ensures |Digits(n)| <= k
    decreases k
  {
    if n >= 10 {
      DigitsLength(n / 10, k - 1);
    }
  }

  function Power10(k: nat): nat {
    if k == 0 then 1 else 10 * Power10(k - 1)
  }

  lemma {:induction false} SpanAll(s: string, test: char -> bool)
    requires forall i :: 0 <= i < |s| ==> test(s[i])
    ensures Lexer.Span(s, test) == |s|
    decreases |s|
  {
    if s != [] { SpanAll(s[1..], test); }
  }

  /** Reading a printed number back. */
  lemma {:induction false} IntLiteralRoundTrip(n: nat)
    requires n < 0x8000_0000
    ensures ConvertInt(Digits(n)) == Converted(IntVal(n))
  {
    hide Digits, Decimal;
    DigitsAreDigits(n);
    TenDigits(n);
    SpanAll(Digits(n), Lexer.IsDigit);
    assert Digits(n)[..|Digits(n)|] == Digits(n);
  }

  lemma TenDigits(n: nat)
    requires n < 0x8000_0000
    ensures |Digits(n)| <= 10
  {
    assert Power10(10) == 10 * (10 * (10 * (10 * (10 * Power10(5))))) && Power10(5) == 100000;
    DigitsLength(n, 10);
  }

  // ---------------------------------------------------------------- strings

  function Chars(s: seq<byte>): (t: string)
    ensures |t| == |s| && forall i :: 0 <= i < |t| ==> t[i] as int == s[i] as int
  {
    seq(|s|, i requires 0 <= i < |s| => (s[i] as int) as char)
  }

  function BytesOf(t: string): (s: seq<byte>)
    ensures |s| == |t|
  {
    seq(|t|, i requires 0 <= i < |t| => if (t[i] as int) < 0x100 then (t[i] as int) as byte else 0)
  }

  lemma CharsBack(s: seq<byte>)
    ensures BytesOf(Chars(s)) == s
  {
  }

  /** format_literal_string. */
  function FormatString(s: seq<byte>): string {
    "\"" + Chars(s) + "\""
  }

  function ConvertString(text: string): Converted {
    if |text| > MAX_VARCHAR_VALUE_SIZE then Refused(TooLong) else Converted(StrVal(BytesOf(text)))
  }

  // ---------------------------------------------------------------- binaries

  function HexChar(d: nat): char
    requires d < 16
  {
    if d < 10 then DigitChar(d) else (d - 10 + 'a' as int) as char
  }

  function HexValue(c: char): (d: nat)
    ensures d < 16
  {
    if Lexer.IsDigit(c) then c as int - '0' as int
    else if 'a' <= c <= 'f' then c as int - 'a' as int + 10
    else 0
  }

  function HexText(b: seq<byte>): string {
    if b == [] then "" else HexText(b[..|b| - 1]) + [HexChar(b[|b| - 1] as int / 16), HexChar(b[|b| - 1] as int % 16)]
  }

  /** format_binary: a running offset, two characters a byte. */
  method FormatBinary(b: seq<byte>) returns (s: string)
    ensures s == "0x" + HexText(b)
  {
    s := "0x";
    for i := 0 to |b|
      invariant s == "0x" + HexText(b[..i])
    {
      assert b[..i + 1][..i] == b[..i];
      s := s + [HexChar(b[i] as int / 16), HexChar(b[i] as int % 16)];
    }
    assert b[..|b|] == b;
  }

  function PairByte(c: char, d: char): byte {
    (16 * HexValue(c) + HexValue(d)) as byte
  }

  function HexPairs(text: string): seq<byte>
    requires |text| % 2 == 0
  {
    if text == "" then [] else HexPairs(text[..|text| - 2]) + [PairByte(text[|text| - 2], text[|text| - 1])]
  }

  /** What convert_hex makes of a hex token: an odd first digit stands alone. */
  function ConvertHex(text: string): Converted {
    if |text| > 2 * MAX_BINARY_VALUE_SIZE then Refused(TooLong)
    else if exists i :: 0 <= i < |text| && !Lexer.IsHexDigit(text[i]) then Refused(BadHex)
    else if |text| % 2 == 1 then Converted(BinVal([HexValue(text[0]) as byte] + HexPairs(text[1..])))
    else Converted(BinVal(HexPairs(text)))
  }

  /** convert_hex: digit by digit pair, given up at the first that is none. */
  method ConvertHexText(text: string) returns (r: Converted)
    ensures r == ConvertHex(text)
  {
    hide HexPairs, Lexer.IsHexDigit;
    if |text| > 2 * MAX_BINARY_VALUE_SIZE {
      return Refused(TooLong);
    }
    var hexIdx := |text| % 2;
    var bytes: seq<byte> := [];
    if hexIdx == 1 {
      if !Lexer.IsHexDigit(text[0]) {
        return Refused(BadHex);
      }
      bytes := [HexValue(text[0]) as byte];
    }
    ghost var first, start := bytes, hexIdx;
    NoPairs(text, start);
    while hexIdx < |text|
      invariant start <= hexIdx <= |text| && (|text| - hexIdx) % 2 == 0 && (hexIdx - start) % 2 == 0
      invariant forall i :: 0 <= i < hexIdx ==> Lexer.IsHexDigit(text[i])
      invariant bytes == first + HexPairs(text[start..hexIdx])
    {
      if !Lexer.IsHexDigit(text[hexIdx]) || !Lexer.IsHexDigit(text[hexIdx + 1]) {
        return Refused(BadHex);
      }
      OnePairMore(text, start, hexIdx);
      bytes := bytes + [PairByte(text[hexIdx], text[hexIdx + 1])];
      hexIdx := hexIdx + 2;
    }
    assert text[start..|text|] == text[start..] && text[0..] == text;
    assert [] + HexPairs(text[start..]) == HexPairs(text[start..]);
    return Converted(BinVal(bytes));
  }

  lemma NoPairs(text: string, start: nat)
    requires start <= |text|
    ensures HexPairs(text[start..start]) == []
  {
  }

  lemma OnePairMore(text: string, start: nat, i: nat)
    requires start <= i && i + 2 <= |text| && (i - start) % 2 == 0
    ensures HexPairs(text[start..i + 2]) == HexPairs(text[start..i]) + [PairByte(text[i], text[i + 1])]
  {
    assert text[start..i + 2][..i - start] == text[start..i];
  }

  lemma HexCharBack(d: nat)
    requires d < 16
    ensures HexValue(HexChar(d)) == d && Lexer.IsHexDigit(HexChar(d))
  {
  }

  lemma ByteBack(x: byte)
    ensures PairByte(HexChar(x as int / 16), HexChar(x as int % 16)) == x
  {
    HexCharBack(x as int / 16);
    HexCharBack(x as int % 16);
  }

  lemma HexTextStep(b: seq<byte>, x: byte)
    ensures HexText(b + [x]) == HexText(b) + [HexChar(x as int / 16), HexChar(x as int % 16)]
  {
    assert (b + [x])[..|b|] == b;
  }

  lemma HexPairsStep(t: string, c: char, d: char)
    requires |t| % 2 == 0
    ensures HexPairs(t + [c, d]) == HexPairs(t) + [PairByte(c, d)]
  {
    assert (t + [c, d])[..|t|] == t;
  }

  lemma {:induction false} HexTextBack(b: seq<byte>)
    ensures |HexText(b)| == 2 * |b|
    ensures forall i :: 0 <= i < |HexText(b)| ==> Lexer.IsHexDigit(HexText(b)[i])
    ensures HexPairs(HexText(b)) == b
    decreases |b|
  {
    if b == [] {
      assert HexText(b) == "" && HexPairs("") == [];
      hide *;
    } else {
      hide *;
      var front, x := b[..|b| - 1], b[|b| - 1];
      HexTextBack(front);
      assert b == front + [x];
      OneByteMore(front, x);
    }
  }

  lemma OneByteMore(b: seq<byte>, x: byte)
    requires |HexText(b)| == 2 * |b| && HexPairs(HexText(b)) == b
    requires forall i :: 0 <= i < |HexText(b)| ==> Lexer.IsHexDigit(HexText(b)[i])
    ensures |HexText(b + [x])| == 2 * |b| + 2 && HexPairs(HexText(b + [x])) == b + [x]
    ensures forall i :: 0 <= i < |HexText(b + [x])| ==> Lexer.IsHexDigit(HexText(b + [x])[i])
  {
    hide HexText, HexPairs, HexChar, PairByte, Lexer.IsHexDigit;
    HexTextStep(b, x);
    HexPairsStep(HexText(b), HexChar(x as int / 16), HexChar(x as int % 16));
    ByteBack(x);
    HexCharBack(x as int / 16);
    HexCharBack(x as int % 16);
  }

  /** Reading a printed binary back. */
  lemma {:induction false} HexLiteralRoundTrip(b: seq<byte>)
    requires |b| <= MAX_BINARY_VALUE_SIZE
    ensures ConvertHex(HexText(b)) == Converted(BinVal(b))
  {
    hide HexText, HexPairs;
    HexTextBack(b);
  }
}
