/** Comparing prepared keys is comparing the indexed columns, lexicographically. */
module KeyRefinement {
  import opened Ordering
  import opened Values
  import opened KeyOrder

  /** Lists of values, the first difference deciding. */
  function CompareValues(u: Row, v: Row): int
    requires |u| == |v|
  {
    if u == [] then 0
    else
      var r := CompareValue(u[0], v[0]);
      if r != 0 then r else CompareValues(u[1..], v[1..])
  }

  /** A value a key part can take. An int part is compared over four bytes, so it must have them. */
  ghost predicate Keyable(p: KeyPart, v: DataValue) {
    match p.columnType
    case IntType => v.IntVal? && IsInt32(v.n) && p.len == 4
    case VarcharType => v.StrVal? && NoZero(v.s)
    case CharType => v.StrVal? && NoZero(v.s)
    case BinaryType => v.BinVal?
  }

  ghost predicate KeyableRow(parts: seq<KeyPart>, u: Row) {
    |u| == |parts| && forall i :: 0 <= i < |u| ==> Keyable(parts[i], u[i])
  }

  /** What a part keeps of a value: a prefix of a string, a binary cut or filled up to its length. */
  function Cut(v: DataValue, len: nat): DataValue {
    match v
    case IntVal(n) => v
    case StrVal(s) => StrVal(if |s| > len then s[..len] else s)
    case BinVal(b) => BinVal(PartBytes(v, len))
  }

  function CutAll(parts: seq<KeyPart>, u: Row): (r: Row)
    requires |u| == |parts|
    ensures |r| == |u|
  {
    if u == [] then [] else [Cut(u[0], parts[0].len)] + CutAll(parts[1..], u[1..])
  }

  /** A buffer holds a part's bytes at an offset. */
  ghost predicate HoldsPart(k: Key, off: nat, v: DataValue, len: nat) {
    forall j :: off <= j < off + len ==> ByteAt(k, j) == PartBytes(v, len)[j - off]
  }

  ghost predicate Padded(k: Key, off: nat, n: nat, s: seq<byte>) {
    |s| <= n && forall j :: off <= j < off + n ==> ByteAt(k, j) == if j - off < |s| then s[j - off] else 0
  }

  lemma {:induction false} StringsCompare(a: Key, b: Key, off: nat, n: nat, s: seq<byte>, t: seq<byte>)
    requires Padded(a, off, n, s) && Padded(b, off, n, t) && NoZero(s) && NoZero(t)
    ensures CompareStringKeys(a, b, off, n) == Lex(s, t)
    decreases n
  {
    if n > 0 {
      assert ByteAt(a, off) == if 0 < |s| then s[0] else 0;
      assert ByteAt(b, off) == if 0 < |t| then t[0] else 0;
      if s != [] && t != [] && s[0] == t[0] {
        PaddedRest(a, off, n, s);
        PaddedRest(b, off, n, t);
        StringsCompare(a, b, off + 1, n - 1, s[1..], t[1..]);
      }
    }
  }

  lemma PaddedRest(a: Key, off: nat, n: nat, s: seq<byte>)
    requires Padded(a, off, n, s) && s != []
    ensures Padded(a, off + 1, n - 1, s[1..])
  {
  }

  lemma {:induction false} BinariesCompare(a: Key, b: Key, off: nat, n: nat, s: seq<byte>, t: seq<byte>)
    requires Padded(a, off, n, s) && Padded(b, off, n, t) && |s| == n == |t|
    ensures CompareBinaryKeys(a, b, off, n) == Lex(s, t)
    decreases n
  {
    if n > 0 {
      assert ByteAt(a, off) == s[0] && ByteAt(b, off) == t[0];
      if s[0] == t[0] {
        PaddedRest(a, off, n, s);
        PaddedRest(b, off, n, t);
        BinariesCompare(a, b, off + 1, n - 1, s[1..], t[1..]);
      }
    }
  }

  lemma IntHeld(a: Key, off: nat, n: int)
    requires IsInt32(n) && HoldsPart(a, off, IntVal(n), 4)
    ensures IntAt(a, off) == n
  {
    var s := PartBytes(IntVal(n), 4);
    assert s == IntBytes(n);
    assert ByteAt(a, off) == s[0] && ByteAt(a, off + 1) == s[1] && ByteAt(a, off + 2) == s[2] && ByteAt(a, off + 3) == s[3];
    IntRoundTrip(n);
  }

  lemma PartHeld(a: Key, off: nat, v: DataValue, len: nat)
    requires HoldsPart(a, off, v, len)
    ensures v.StrVal? ==> Padded(a, off, len, Cut(v, len).s)
    ensures v.BinVal? ==> Padded(a, off, len, Cut(v, len).b)
  {
  }

  /** One part: comparing the bytes is comparing what the part keeps of the values. */
  lemma PartCompares(p: KeyPart, a: Key, b: Key, off: nat, x: DataValue, y: DataValue)
    requires Keyable(p, x) && Keyable(p, y) && HoldsPart(a, off, x, p.len) && HoldsPart(b, off, y, p.len)
    ensures ComparePart(p, a, b, off) == CompareValue(Cut(x, p.len), Cut(y, p.len))
  {
    hide IntAt, HoldsPart, Padded, CompareStringKeys, CompareBinaryKeys, Lex;
    PartHeld(a, off, x, p.len);
    PartHeld(b, off, y, p.len);
    if p.columnType.IntType? {
      IntHeld(a, off, x.n);
      IntHeld(b, off, y.n);
    } else if p.columnType.BinaryType? {
      BinariesCompare(a, b, off, p.len, Cut(x, p.len).b, Cut(y, p.len).b);
    } else {
      StringsCompare(a, b, off, p.len, Cut(x, p.len).s, Cut(y, p.len).s);
    }
  }

  lemma HeldInKey(pre: Key, v: DataValue, len: nat, rest: Key)
    ensures HoldsPart(pre + (PartBytes(v, len) + rest), |pre|, v, len)
  {
    var k := pre + (PartBytes(v, len) + rest);
  }

  /** The first part of a key, and the rest of it. */
  lemma KeyStep(parts: seq<KeyPart>, u: Row, p: Key)
    requires KeyableRow(parts, u) && parts != []
    ensures var n := parts[0].len;
      && Keyable(parts[0], u[0]) && KeyableRow(parts[1..], u[1..])
      && HoldsPart(p + KeyOf(parts, u), |p|, u[0], n)
      && p + KeyOf(parts, u) == (p + PartBytes(u[0], n)) + KeyOf(parts[1..], u[1..])
      && |p + PartBytes(u[0], n)| == |p| + n
      && CutAll(parts, u)[0] == Cut(u[0], n) && CutAll(parts, u)[1..] == CutAll(parts[1..], u[1..])
  {
    HeldInKey(p, u[0], parts[0].len, KeyOf(parts[1..], u[1..]));
    RegroupKey(p, PartBytes(u[0], parts[0].len), KeyOf(parts[1..], u[1..]));
    hide PartBytes, ByteAt, HoldsPart, Keyable, Cut;
  }

  lemma RegroupKey(p: Key, x: Key, k: Key)
    ensures p + (x + k) == (p + x) + k
  {
  }

  /** Comparing two prepared keys from any part on. */
  lemma {:induction false} KeysCompare(parts: seq<KeyPart>, u: Row, v: Row, p: Key, q: Key)
    requires KeyableRow(parts, u) && KeyableRow(parts, v) && |p| == |q|
    ensures CompareFrom(parts, p + KeyOf(parts, u), q + KeyOf(parts, v), |p|) == CompareValues(CutAll(parts, u), CutAll(parts, v))
    decreases |parts|
  {
    hide ComparePart, PartBytes, CompareValue, Keyable, KeyableRow, KeyOf, CutAll, HoldsPart;
    KeyableLength(parts, u);
    KeyableLength(parts, v);
    if parts != [] {
      KeyStep(parts, u, p);
      KeyStep(parts, v, q);
      PartCompares(parts[0], p + KeyOf(parts, u), q + KeyOf(parts, v), |p|, u[0], v[0]);
      KeysCompare(parts[1..], u[1..], v[1..], p + PartBytes(u[0], parts[0].len), q + PartBytes(v[0], parts[0].len));
    }
  }

  lemma KeyableLength(parts: seq<KeyPart>, u: Row)
    requires KeyableRow(parts, u)
    ensures |u| == |parts|
  {
  }

  /** compound_compare on two prepared keys is the lexicographic order of what the parts keep of the columns. */
  lemma {:induction false} KeyOrderRefinesRowOrder(parts: seq<KeyPart>, u: Row, v: Row)
    requires KeyableRow(parts, u) && KeyableRow(parts, v)
    ensures CompareFrom(parts, KeyOf(parts, u), KeyOf(parts, v), 0) == CompareValues(CutAll(parts, u), CutAll(parts, v))
  {
    hide CompareFrom, CompareValues, CutAll, KeyOf;
    KeysCompare(parts, u, v, [], []);
    assert [] + KeyOf(parts, u) == KeyOf(parts, u) && [] + KeyOf(parts, v) == KeyOf(parts, v);
  }

  // ---------------------------------------------------------------- full-width parts

  /** The value of a stored column as wide as its key part: nothing of it is cut off. */
  ghost predicate Whole(p: KeyPart, v: DataValue) {
    Keyable(p, v) && (v.StrVal? ==> |v.s| <= p.len) && (v.BinVal? ==> |v.b| == p.len)
  }

  ghost predicate WholeRow(parts: seq<KeyPart>, u: Row) {
    |u| == |parts| && forall i :: 0 <= i < |u| ==> Whole(parts[i], u[i])
  }

  lemma {:induction false} NothingCut(parts: seq<KeyPart>, u: Row)
    requires WholeRow(parts, u)
    ensures CutAll(parts, u) == u && KeyableRow(parts, u)
    decreases |parts|
  {
    if parts != [] {
      NothingCut(parts[1..], u[1..]);
      assert Whole(parts[0], u[0]);
      if u[0].BinVal? { assert u[0].b[..parts[0].len] == u[0].b; }
      assert u == [u[0]] + u[1..];
    }
  }

  /** Full-width parts: key order is the order of the columns themselves, and equal keys mean equal columns. */
  lemma {:induction false} FullWidthKeyOrder(parts: seq<KeyPart>, u: Row, v: Row)
    requires WholeRow(parts, u) && WholeRow(parts, v)
    ensures CompareFrom(parts, KeyOf(parts, u), KeyOf(parts, v), 0) == CompareValues(u, v)
    ensures CompareFrom(parts, KeyOf(parts, u), KeyOf(parts, v), 0) == 0 <==> u == v
    ensures KeyOf(parts, u) == KeyOf(parts, v) <==> u == v
  {
    hide CompareFrom, CompareValues, CutAll, WholeRow, KeyableRow, KeyOf;
    NothingCut(parts, u);
    NothingCut(parts, v);
    KeyOrderRefinesRowOrder(parts, u, v);
    ValuesZeroIffEqual(u, v);
    SameKeyIffZero(parts, u, v);
  }

  lemma {:induction false} ValuesZeroIffEqual(u: Row, v: Row)
    requires |u| == |v|
    ensures CompareValues(u, v) == 0 <==> u == v
    decreases |u|
  {
    hide CompareValue;
    if u != [] {
      CompareZeroIffEqual(u[0], v[0]);
      ValuesZeroIffEqual(u[1..], v[1..]);
      assert u == [u[0]] + u[1..] && v == [v[0]] + v[1..];
    }
  }

  // ---------------------------------------------------------------- keys of any width

  lemma PartBytesOfCut(p: KeyPart, x: DataValue, y: DataValue)
    requires Keyable(p, x) && Keyable(p, y)
    ensures PartBytes(x, p.len) == PartBytes(y, p.len) <==> Cut(x, p.len) == Cut(y, p.len)
  {
    var a, b := PartBytes(x, p.len), PartBytes(y, p.len);
    assert HoldsPart(a, 0, x, p.len) && HoldsPart(b, 0, y, p.len);
    PartCompares(p, a, b, 0, x, y);
    PartOrder(p, a, a, a, 0);
    CompareZeroIffEqual(Cut(x, p.len), Cut(y, p.len));
    if x.IntVal? { assert Cut(x, 4) == x && Cut(y, 4) == y; }
    if Cut(x, p.len) == Cut(y, p.len) && x.StrVal? {
      assert forall i :: 0 <= i < p.len ==> a[i] == b[i];
    }
  }

  /** Prepared keys compare as 0 only when they are the same bytes: the tree's keys are a map's keys. */
  lemma {:induction false} SameKeyIffZero(parts: seq<KeyPart>, u: Row, v: Row)
    requires KeyableRow(parts, u) && KeyableRow(parts, v)
    ensures KeyOf(parts, u) == KeyOf(parts, v) <==> CompareFrom(parts, KeyOf(parts, u), KeyOf(parts, v), 0) == 0
    ensures KeyOf(parts, u) == KeyOf(parts, v) <==> CutAll(parts, u) == CutAll(parts, v)
    decreases |parts|
  {
    KeyOrderRefinesRowOrder(parts, u, v);
    ValuesZeroIffEqual(CutAll(parts, u), CutAll(parts, v));
    SameKeySameCut(parts, u, v);
  }

  lemma {:induction false} SameKeySameCut(parts: seq<KeyPart>, u: Row, v: Row)
    requires KeyableRow(parts, u) && KeyableRow(parts, v)
    ensures KeyOf(parts, u) == KeyOf(parts, v) <==> CutAll(parts, u) == CutAll(parts, v)
    decreases |parts|
  {
    hide PartBytes, Cut, Keyable;
    if parts != [] {
      var n := parts[0].len;
      assert Keyable(parts[0], u[0]) && Keyable(parts[0], v[0]);
      PartBytesOfCut(parts[0], u[0], v[0]);
      SameKeySameCut(parts[1..], u[1..], v[1..]);
      SplitEqual(PartBytes(u[0], n), KeyOf(parts[1..], u[1..]), PartBytes(v[0], n), KeyOf(parts[1..], v[1..]));
      ConsEqual(Cut(u[0], n), CutAll(parts[1..], u[1..]), Cut(v[0], n), CutAll(parts[1..], v[1..]));
    }
  }

  lemma SplitEqual(a: Key, b: Key, c: Key, d: Key)
    requires |a| == |c|
    ensures a + b == c + d <==> a == c && b == d
  {
    if a + b == c + d {
      assert a == (a + b)[..|a|] && b == (a + b)[|a|..];
      assert c == (c + d)[..|a|] && d == (c + d)[|a|..];
    }
  }

  lemma ConsEqual(a: DataValue, b: Row, c: DataValue, d: Row)
    ensures [a] + b == [c] + d <==> a == c && b == d
  {
    if [a] + b == [c] + d {
      assert a == ([a] + b)[0] && b == ([a] + b)[1..];
      assert c == ([c] + d)[0] && d == ([c] + d)[1..];
    }
  }

  lemma {:induction false} CutAt(parts: seq<KeyPart>, u: Row, i: nat)
    requires |u| == |parts| && i < |u|
    ensures CutAll(parts, u)[i] == Cut(u[i], parts[i].len)
    decreases i
  {
    if i > 0 { CutAt(parts[1..], u[1..], i - 1); }
  }

  lemma {:induction false} SameParts(parts: seq<KeyPart>, u: Row, v: Row)
    requires |u| == |v| == |parts|
    ensures KeyOf(parts, u) == KeyOf(parts, v)
       <==> forall i :: 0 <= i < |parts| ==> PartBytes(u[i], parts[i].len) == PartBytes(v[i], parts[i].len)
    decreases |parts|
  {
    hide PartBytes;
    if parts != [] {
      var rest, a, b := parts[1..], u[1..], v[1..];
      SameParts(rest, a, b);
      SplitEqual(PartBytes(u[0], parts[0].len), KeyOf(rest, a), PartBytes(v[0], parts[0].len), KeyOf(rest, b));
      assert forall i :: 0 <= i < |rest| ==> rest[i] == parts[i + 1] && a[i] == u[i + 1] && b[i] == v[i + 1];
      assert forall i :: 0 < i < |parts| ==> parts[i] == rest[i - 1] && u[i] == a[i - 1] && v[i] == b[i - 1];
    }
  }

  // ---------------------------------------------------------------- an int part that is too narrow

  /** A value of a part's column, whatever the width of the part. */
  ghost predicate OfColumn(p: KeyPart, v: DataValue) {
    match p.columnType
    case IntType => v.IntVal? && IsInt32(v.n)
    case VarcharType => v.StrVal? && NoZero(v.s)
    case CharType => v.StrVal? && NoZero(v.s)
    case BinaryType => v.BinVal?
  }

  ghost predicate RowOfColumns(parts: seq<KeyPart>, u: Row) {
    |u| == |parts| && forall i :: 0 <= i < |u| ==> OfColumn(parts[i], u[i])
  }

  ghost predicate OrdersAgree(parts: seq<KeyPart>, u: Row, v: Row)
    requires |u| == |v| == |parts|
  {
    CompareFrom(parts, KeyOf(parts, u), KeyOf(parts, v), 0) == CompareValues(CutAll(parts, u), CutAll(parts, v))
  }

  function Blank(p: KeyPart): DataValue {
    match p.columnType
    case IntType => IntVal(0)
    case VarcharType => StrVal([])
    case CharType => StrVal([])
    case BinaryType => BinVal([])
  }

  /** Less than four bytes of an int do not tell 0 from the number with only its last byte set. */
  lemma {:induction false} NarrowIntsCollide(parts: seq<KeyPart>, u: Row, i: nat)
    requires |u| == |parts| && i < |parts| && parts[i].len < 4
    ensures KeyOf(parts, u[i := IntVal(0)]) == KeyOf(parts, u[i := IntVal(0x100_0000)])
  {
    assert IntBytes(0) == [0, 0, 0, 0] && IntBytes(0x100_0000) == [0, 0, 0, 1];
    assert PartBytes(IntVal(0), parts[i].len) == PartBytes(IntVal(0x100_0000), parts[i].len);
    SameParts(parts, u[i := IntVal(0)], u[i := IntVal(0x100_0000)]);
  }

  /** Key order is the order of the columns for every two rows exactly when all int parts are four bytes wide. */
  lemma {:induction false} OrdersAgreeIffIntsWhole(parts: seq<KeyPart>)
    requires forall i :: 0 <= i < |parts| && parts[i].columnType.IntType? ==> parts[i].len <= 4
    ensures (forall u, v :: RowOfColumns(parts, u) && RowOfColumns(parts, v) ==> OrdersAgree(parts, u, v))
       <==> (forall i :: 0 <= i < |parts| && parts[i].columnType.IntType? ==> parts[i].len == 4)
  {
    hide CompareFrom, CompareValues, KeyOf, CutAll, NoZero;
    if forall i :: 0 <= i < |parts| && parts[i].columnType.IntType? ==> parts[i].len == 4 {
      forall u, v | RowOfColumns(parts, u) && RowOfColumns(parts, v) ensures OrdersAgree(parts, u, v) {
        assert forall i :: 0 <= i < |u| ==> OfColumn(parts[i], u[i]) && OfColumn(parts[i], v[i]);
        KeyOrderRefinesRowOrder(parts, u, v);
      }
    } else {
      var i :| 0 <= i < |parts| && parts[i].columnType.IntType? && parts[i].len < 4;
      NarrowIntMisleads(parts, i);
    }
  }

  lemma {:induction false} NarrowIntMisleads(parts: seq<KeyPart>, i: nat)
    requires i < |parts| && parts[i].columnType.IntType? && parts[i].len < 4
    ensures exists u, v :: RowOfColumns(parts, u) && RowOfColumns(parts, v) && !OrdersAgree(parts, u, v)
  {
    hide CompareFrom, CompareValues, KeyOf, CutAll;
    var blank := seq(|parts|, j requires 0 <= j < |parts| => Blank(parts[j]));
    var u, v := blank[i := IntVal(0)], blank[i := IntVal(0x100_0000)];
    assert RowOfColumns(parts, u) && RowOfColumns(parts, v);
    NarrowIntsCollide(parts, blank, i);
    CompoundOrder(parts, KeyOf(parts, u), KeyOf(parts, u), KeyOf(parts, u), 0);
    CutAt(parts, u, i);
    CutAt(parts, v, i);
    ValuesZeroIffEqual(CutAll(parts, u), CutAll(parts, v));
    assert !OrdersAgree(parts, u, v);
  }

  /** Two bytes of an int and two of a binary: the int comparator reads all four. */
  function NarrowParts(): seq<KeyPart> {
    [KeyPart(0, IntType, 2), KeyPart(1, BinaryType, 2)]
  }

  function NarrowRow(n: int, b: byte): Row {
    [IntVal(n), BinVal([0, b])]
  }

  /** 0 comes before 1, but its key after the other's: an int part must be four bytes wide. */
  lemma {:induction false} NarrowIntPartMisorders()
    ensures CompareValues(NarrowRow(0, 1), NarrowRow(1, 0)) < 0
    ensures CompareFrom(NarrowParts(), KeyOf(NarrowParts(), NarrowRow(0, 1)), KeyOf(NarrowParts(), NarrowRow(1, 0)), 0) > 0
  {
    var parts, u, v := NarrowParts(), NarrowRow(0, 1), NarrowRow(1, 0);
    assert IntBytes(0) == [0, 0, 0, 0] && IntBytes(1) == [1, 0, 0, 0];
    assert parts[1..] == [parts[1]] && parts[1..][1..] == [];
    assert KeyOf(parts[1..], u[1..]) == PartBytes(u[1], 2) + [] == [0, 1];
    assert KeyOf(parts[1..], v[1..]) == PartBytes(v[1], 2) + [] == [0, 0];
    assert KeyOf(parts, u) == [0, 0, 0, 1] && KeyOf(parts, v) == [1, 0, 0, 0];
  }
}
