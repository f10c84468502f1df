/** Column types, values, and how values compare. */
module Values {
  import opened Ordering

  const MAX_VARCHAR_VALUE_SIZE := 255
  const MAX_CHAR_VALUE_SIZE := 128
  const MAX_BINARY_VALUE_SIZE := 128
  const MAX_COLUMNS_PER_TABLE := 16

  datatype ColumnType = IntType | VarcharType | CharType | BinaryType

  /** A column's type with its length in bytes. */
  datatype ResolvedType = ResolvedType(columnType: ColumnType, byteLen: nat)

  /** Strings are C strings: bytes without a zero. */
  datatype DataValue = IntVal(n: int) | StrVal(s: seq<byte>) | BinVal(b: seq<byte>)

  type Row = seq<DataValue>

  predicate ValidType(rt: ResolvedType) {
    match rt.columnType
    case IntType => rt.byteLen == 4
    case VarcharType => 1 <= rt.byteLen <= MAX_VARCHAR_VALUE_SIZE
    case CharType => 1 <= rt.byteLen <= MAX_CHAR_VALUE_SIZE
    case BinaryType => 1 <= rt.byteLen <= MAX_BINARY_VALUE_SIZE
  }

  predicate IsInt32(n: int) {
    -0x8000_0000 <= n < 0x8000_0000
  }

  ghost predicate NoZero(s: seq<byte>) {
    forall i :: 0 <= i < |s| ==> s[i] != 0
  }

  /** resolved_type_validate, on a value that is one: an int32, or a string without a zero. */
  ghost predicate WellTyped(v: DataValue, rt: ResolvedType) {
    match rt.columnType
    case IntType => v.IntVal? && IsInt32(v.n)
    case VarcharType => v.StrVal? && NoZero(v.s) && |v.s| <= rt.byteLen
    case CharType => v.StrVal? && NoZero(v.s) && |v.s| <= rt.byteLen
    case BinaryType => v.BinVal? && |v.b| <= rt.byteLen
  }

  ghost predicate WellTypedRow(row: Row, schema: seq<ResolvedType>) {
    |row| == |schema| && forall i :: 0 <= i < |row| ==> WellTyped(row[i], schema[i])
  }

  ghost predicate ValidSchema(schema: seq<ResolvedType>) {
    |schema| <= MAX_COLUMNS_PER_TABLE && forall i :: 0 <= i < |schema| ==> ValidType(schema[i])
  }

  // ---------------------------------------------------------------- compare_value

  function Sign(n: int): int {
    if n < 0 then -1 else if n > 0 then 1 else 0
  }

  /** The sign of strcmp on strings without a zero, and of memcmp on equally long buffers. */
  function Lex(a: seq<byte>, b: seq<byte>): int {
    if a == [] then (if b == [] then 0 else -1)
    else if b == [] then 1
    else if a[0] != b[0] then (if a[0] < b[0] then -1 else 1)
    else Lex(a[1..], b[1..])
  }

  /**
   * compare_value. It switches on the type of `a` and reads `b` as one of the same; callers only compare values of
   * one column, so the 1 given for different types stands for a case that well-typed values do not reach.
   */
  function CompareValue(a: DataValue, b: DataValue): int {
    match a
    case IntVal(n) => if b.IntVal? then Sign(n - b.n) else 1
    case StrVal(s) => if b.StrVal? then Lex(s, b.s) else 1
    case BinVal(x) =>
      if !b.BinVal? then 1
      else if |x| != |b.b| then Sign(|x| - |b.b|)
      else Lex(x, b.b)
  }

  lemma {:induction false} LexZeroIffEqual(a: seq<byte>, b: seq<byte>)
    ensures Lex(a, b) == 0 <==> a == b
    decreases |a|
  {
    if a != [] && b != [] && a[0] == b[0] {
      LexZeroIffEqual(a[1..], b[1..]);
      assert a == [a[0]] + a[1..] && b == [b[0]] + b[1..];
    }
  }

  /** Values compare as 0 exactly when they are the same value. */
  lemma CompareZeroIffEqual(a: DataValue, b: DataValue)
    ensures CompareValue(a, b) == 0 <==> a == b
  {
    if a.StrVal? && b.StrVal? { LexZeroIffEqual(a.s, b.s); }
    if a.BinVal? && b.BinVal? { LexZeroIffEqual(a.b, b.b); }
  }

  datatype ConditionOp = Equals | NotEquals | Less | LessOrEqual | Greater | GreatOrEqual

  predicate MatchesOp(op: ConditionOp, cmp: int) {
    match op
    case Equals => cmp == 0
    case NotEquals => cmp != 0
    case Less => cmp < 0
    case LessOrEqual => cmp <= 0
    case Greater => cmp > 0
    case GreatOrEqual => cmp >= 0
  }

  // ---------------------------------------------------------------- int32 in memory, low byte first

  function Unsigned(n: int): nat
    requires IsInt32(n)
  {
    if n < 0 then n + 0x1_0000_0000 else n
  }

  function Signed(u: nat): (n: int)
    requires u < 0x1_0000_0000
    ensures IsInt32(n)
  {
    if u >= 0x8000_0000 then u - 0x1_0000_0000 else u
  }

  function IntBytes(n: int): (s: seq<byte>)
    requires IsInt32(n)
    ensures |s| == 4
  {
    var u := Unsigned(n);
    [(u % 0x100) as byte, (u / 0x100 % 0x100) as byte, (u / 0x1_0000 % 0x100) as byte, (u / 0x100_0000) as byte]
  }

  function IntFrom(b0: byte, b1: byte, b2: byte, b3: byte): (n: int)
    ensures IsInt32(n)
  {
    Signed(b0 as nat + 0x100 * b1 as nat + 0x1_0000 * b2 as nat + 0x100_0000 * b3 as nat)
  }

  lemma IntRoundTrip(n: int)
    requires IsInt32(n)
    ensures var s := IntBytes(n); IntFrom(s[0], s[1], s[2], s[3]) == n
  {
    var u := Unsigned(n);
    assert u / 0x100 / 0x100 == u / 0x1_0000 && u / 0x1_0000 / 0x100 == u / 0x100_0000;
  }

  lemma IntBytesBack(b0: byte, b1: byte, b2: byte, b3: byte)
    ensures IntBytes(IntFrom(b0, b1, b2, b3)) == [b0, b1, b2, b3]
  {
    var u := b0 as nat + 0x100 * b1 as nat + 0x1_0000 * b2 as nat + 0x100_0000 * b3 as nat;
    assert Unsigned(IntFrom(b0, b1, b2, b3)) == u;
    assert u / 0x100 == b1 as nat + 0x100 * b2 as nat + 0x1_0000 * b3 as nat;
    assert u / 0x1_0000 == b2 as nat + 0x100 * b3 as nat;
  }
}
