/** Rows as bytes in the data file: encoding and decoding column by column. */
module RowCodec {
  import opened Ordering
  import opened Values
  import opened KeyOrder

  const SPACE: byte := 32
  const ROW_FLAGS_SIZE := 1
  const ROW_SIZE_FIELD := 2
  const HEADER_SIZE := ROW_FLAGS_SIZE + ROW_SIZE_FIELD
  const MAX_DATA_SIZE := MAX_COLUMNS_PER_TABLE * (1 + MAX_VARCHAR_VALUE_SIZE)

  type Schema = seq<ResolvedType>

  function Spaces(n: nat): (s: seq<byte>)
    ensures |s| == n
  {
    seq(n, _ => SPACE)
  }

  /** The bytes a value takes in a row. */
  function EncodeValue(v: DataValue, rt: ResolvedType): seq<byte>
    requires WellTyped(v, rt)
  {
    match rt.columnType
    case IntType => IntBytes(v.n)
    case VarcharType => if |v.s| < 0x100 then [|v.s| as byte] + v.s else []
    case CharType => v.s + Spaces(rt.byteLen - |v.s|)
    case BinaryType => v.b + Zeros(rt.byteLen - |v.b|)
  }

  function EncodeRow(row: Row, schema: Schema): seq<byte>
    requires WellTypedRow(row, schema)
  {
    if row == [] then [] else EncodeValue(row[0], schema[0]) + EncodeRow(row[1..], schema[1..])
  }

  /** A string without its trailing spaces. */
  function Trim(s: seq<byte>): (r: seq<byte>)
    ensures |r| <= |s|
  {
    if s == [] || s[|s| - 1] != SPACE then s else Trim(s[..|s| - 1])
  }

  /** The C string at the start of a buffer: up to the first zero. */
  function CString(s: seq<byte>): seq<byte> {
    if s == [] || s[0] == 0 then [] else [s[0]] + CString(s[1..])
  }

  /** How many bytes a value takes at the start of `s`. */
  function Width(s: seq<byte>, rt: ResolvedType): nat {
    if rt.columnType.VarcharType? then (if s == [] then 1 else 1 + s[0] as nat) else rt.byteLen
  }

  predicate CanDecode(s: seq<byte>, rt: ResolvedType) {
    s != [] && Width(s, rt) <= |s| && ValidType(rt)
  }

  function DecodeValue(s: seq<byte>, rt: ResolvedType): DataValue
    requires CanDecode(s, rt)
  {
    match rt.columnType
    case IntType => IntVal(IntFrom(s[0], s[1], s[2], s[3]))
    case VarcharType => StrVal(CString(s[1..Width(s, rt)]))
    case CharType => StrVal(CString(Trim(s[..rt.byteLen])))
    case BinaryType => BinVal(s[..rt.byteLen])
  }

  predicate CanDecodeRow(s: seq<byte>, schema: Schema) {
    schema != [] ==> CanDecode(s, schema[0]) && CanDecodeRow(s[Width(s, schema[0])..], schema[1..])
  }

  function DecodeRow(s: seq<byte>, schema: Schema): Row
    requires CanDecodeRow(s, schema)
  {
    if schema == [] then [] else [DecodeValue(s, schema[0])] + DecodeRow(s[Width(s, schema[0])..], schema[1..])
  }

  /** What reading back makes of a value: a char loses its trailing spaces, a binary is filled up with zeros. */
  function Normal(v: DataValue, rt: ResolvedType): DataValue {
    match rt.columnType
    case IntType => v
    case VarcharType => v
    case CharType => if v.StrVal? then StrVal(Trim(v.s)) else v
    case BinaryType => if v.BinVal? then BinVal(PartBytes(v, rt.byteLen)) else v
  }

  function NormalRow(row: Row, schema: Schema): (r: Row)
    requires |row| == |schema|
    ensures |r| == |row|
  {
    if row == [] then [] else [Normal(row[0], schema[0])] + NormalRow(row[1..], schema[1..])
  }

  lemma {:induction false} NormalAt(row: Row, schema: Schema, i: nat)
    requires |row| == |schema| && i < |row|
    ensures NormalRow(row, schema)[i] == Normal(row[i], schema[i])
    decreases i
  {
    if i > 0 { NormalAt(row[1..], schema[1..], i - 1); }
  }

  // ---------------------------------------------------------------- round trip of one value

  lemma {:induction false} TrimFacts(s: seq<byte>, n: nat)
    ensures Trim(s + Spaces(n)) == Trim(s)
    ensures |Trim(s)| <= |s| && Trim(s) == s[..|Trim(s)|]
    ensures Trim(Trim(s)) == Trim(s)
    ensures NoZero(s) ==> NoZero(Trim(s))
    decreases |s| + n
  {
    var t := s + Spaces(n);
    if n > 0 {
      assert t[..|t| - 1] == s + Spaces(n - 1);
      TrimFacts(s, n - 1);
    } else {
      assert t == s;
      if s != [] && s[|s| - 1] == SPACE {
        TrimFacts(s[..|s| - 1], 0);
        assert s[..|s| - 1] + Spaces(0) == s[..|s| - 1];
      }
    }
  }

  /** A string ends in a space exactly when trimming it loses something; the lost part is spaces. */
  lemma {:induction false} TrimmedPadded(s: seq<byte>, n: nat)
    requires |s| <= n
    ensures Trim(s) + Spaces(n - |Trim(s)|) == s + Spaces(n - |s|)
    decreases |s|
  {
    TrimFacts(s, 0);
    if s != [] && s[|s| - 1] == SPACE {
      TrimmedPadded(s[..|s| - 1], n);
      assert s == s[..|s| - 1] + [SPACE];
    }
  }

  lemma {:induction false} CStringWhole(s: seq<byte>)
    requires NoZero(s)
    ensures CString(s) == s
    decreases |s|
  {
    if s != [] {
      CStringWhole(s[1..]);
      assert s == [s[0]] + s[1..];
    }
  }

  /** One value: decoding takes exactly the bytes encoding made, and returns the value as read back. */
  lemma ValueRoundTrip(v: DataValue, rt: ResolvedType, rest: seq<byte>)
    requires WellTyped(v, rt) && ValidType(rt)
    ensures CanDecode(EncodeValue(v, rt) + rest, rt)
    ensures Width(EncodeValue(v, rt) + rest, rt) == |EncodeValue(v, rt)| <= 1 + MAX_VARCHAR_VALUE_SIZE
    ensures DecodeValue(EncodeValue(v, rt) + rest, rt) == Normal(v, rt)
  {
    var e := EncodeValue(v, rt);
    var s := e + rest;
    match rt.columnType
    case IntType => IntRoundTrip(v.n);
    case VarcharType =>
      CStringWhole(v.s);
      assert s[1..1 + |v.s|] == v.s;
    case CharType =>
      TrimFacts(v.s, rt.byteLen - |v.s|);
      CStringWhole(Trim(v.s));
      assert s[..rt.byteLen] == e;
    case BinaryType =>
      assert s[..rt.byteLen] == e;
      if |v.b| == rt.byteLen { assert e == v.b[..rt.byteLen]; }
  }

  /** Reading back once is enough: what was read is encoded as it was, and read again unchanged. */
  lemma NormalIsFixed(v: DataValue, rt: ResolvedType)
    requires WellTyped(v, rt) && ValidType(rt)
    ensures WellTyped(Normal(v, rt), rt)
    ensures Normal(Normal(v, rt), rt) == Normal(v, rt)
    ensures EncodeValue(Normal(v, rt), rt) == EncodeValue(v, rt)
  {
    match rt.columnType
    case IntType =>
    case VarcharType =>
    case CharType =>
      TrimFacts(v.s, 0);
      TrimmedPadded(v.s, rt.byteLen);
    case BinaryType =>
      var p := PartBytes(v, rt.byteLen);
      assert p[..rt.byteLen] == p;
  }

  // ---------------------------------------------------------------- round trip of a row

  /** A row: decoding consumes exactly what encoding produced and gives the row as read back. */
  lemma {:induction false} RowRoundTrip(row: Row, schema: Schema, rest: seq<byte>)
    requires WellTypedRow(row, schema) && ValidSchema(schema)
    ensures CanDecodeRow(EncodeRow(row, schema) + rest, schema)
    ensures DecodeRow(EncodeRow(row, schema) + rest, schema) == NormalRow(row, schema)
    ensures |EncodeRow(row, schema)| <= |schema| * (1 + MAX_VARCHAR_VALUE_SIZE)
    decreases |row|
  {
    hide EncodeValue, DecodeValue, Normal, WellTyped, Width, CanDecode;
    if row != [] {
      var e, more := EncodeValue(row[0], schema[0]), EncodeRow(row[1..], schema[1..]);
      ValueRoundTrip(row[0], schema[0], more + rest);
      RowRoundTrip(row[1..], schema[1..], rest);
      var s := EncodeRow(row, schema) + rest;
      assert s == e + (more + rest);
      assert s[|e|..] == more + rest;
    }
  }

  /** Every row fits the row buffer and the 16-bit size field. */
  lemma RowFits(row: Row, schema: Schema)
    requires WellTypedRow(row, schema) && ValidSchema(schema)
    ensures |EncodeRow(row, schema)| <= 4096 == MAX_DATA_SIZE && HEADER_SIZE + |EncodeRow(row, schema)| < 0x1_0000
  {
    RowRoundTrip(row, schema, []);
  }

  lemma {:induction false} NormalRowIsFixed(row: Row, schema: Schema)
    requires WellTypedRow(row, schema) && ValidSchema(schema)
    ensures WellTypedRow(NormalRow(row, schema), schema)
    ensures NormalRow(NormalRow(row, schema), schema) == NormalRow(row, schema)
    ensures EncodeRow(NormalRow(row, schema), schema) == EncodeRow(row, schema)
    decreases |row|
  {
    hide EncodeValue, Normal, WellTyped;
    if row != [] {
      NormalIsFixed(row[0], schema[0]);
      NormalRowIsFixed(row[1..], schema[1..]);
      var n := NormalRow(row, schema);
      assert n[0] == Normal(row[0], schema[0]) && n[1..] == NormalRow(row[1..], schema[1..]);
      forall i | 0 <= i < |n|
        ensures WellTyped(n[i], schema[i])
      {
        if i > 0 { assert n[i] == n[1..][i - 1] && schema[i] == schema[1..][i - 1]; }
      }
    }
  }

  // ---------------------------------------------------------------- the loops over the buffer

  /** Overwrites a stretch of the buffer, from `off` on. */
  method Put(buf: array<byte>, off: nat, bytes: seq<byte>)
    requires off + |bytes| <= buf.Length
    modifies buf
    ensures forall j :: 0 <= j < buf.Length ==> buf[j] == if off <= j < off + |bytes| then bytes[j - off] else old(buf[j])
  {
    forall j | off <= j < off + |bytes| {
      buf[j] := bytes[j - off];
    }
  }

  /** The serialize function of each type: writes at `off` and says how many bytes it wrote. */
  method SerializeValue(v: DataValue, rt: ResolvedType, buf: array<byte>, off: nat) returns (n: nat)
    requires WellTyped(v, rt) && ValidType(rt) && off + |EncodeValue(v, rt)| <= buf.Length
    modifies buf
    ensures n == |EncodeValue(v, rt)| && buf[off..off + n] == EncodeValue(v, rt)
    ensures buf[..off] == old(buf[..off])
  {
    match rt.columnType
    case IntType =>
      Put(buf, off, IntBytes(v.n));
      return rt.byteLen;
    case VarcharType =>
      var len := |v.s| as byte;
      Put(buf, off, [len]);
      Put(buf, off + 1, v.s);
      return |v.s| + 1;
    case CharType =>
      Put(buf, off, v.s);
      Put(buf, off + |v.s|, Spaces(rt.byteLen - |v.s|));
      return rt.byteLen;
    case BinaryType =>
      Put(buf, off, v.b);
      Put(buf, off + |v.b|, Zeros(rt.byteLen - |v.b|));
      return rt.byteLen;
  }

  lemma {:induction false} EncodeUpTo(row: Row, schema: Schema, i: nat)
    requires WellTypedRow(row, schema) && i < |row|
    ensures EncodeRow(row[..i + 1], schema[..i + 1]) == EncodeRow(row[..i], schema[..i]) + EncodeValue(row[i], schema[i])
    ensures EncodeRow(row[..i + 1], schema[..i + 1]) <= EncodeRow(row, schema)
    decreases i
  {
    hide EncodeValue, WellTyped;
    assert row[..i + 1][1..] == row[1..][..i] && schema[..i + 1][1..] == schema[1..][..i];
    if i > 0 {
      EncodeUpTo(row[1..], schema[1..], i - 1);
      assert row[..i][1..] == row[1..][..i - 1] && schema[..i][1..] == schema[1..][..i - 1];
    }
  }

  /** serialize_row_data: a running offset over the columns. */
  method SerializeRowData(row: Row, schema: Schema, buf: array<byte>, start: nat) returns (offset: nat)
    requires WellTypedRow(row, schema) && ValidSchema(schema) && start + MAX_DATA_SIZE <= buf.Length
    modifies buf
    ensures offset == |EncodeRow(row, schema)| && start + offset <= buf.Length
    ensures buf[start..start + offset] == EncodeRow(row, schema) && buf[..start] == old(buf[..start])
  {
    hide EncodeValue, EncodeRow, WellTyped;
    RowFits(row, schema);
    offset := 0;
    NothingEncoded(row, schema);
    for i := 0 to |schema|
      invariant offset == |EncodeRow(row[..i], schema[..i])| <= |EncodeRow(row, schema)|
      invariant buf[start..start + offset] == EncodeRow(row[..i], schema[..i]) && buf[..start] == old(buf[..start])
    {
      EncodeUpTo(row, schema, i);
      ghost var before := buf[..start + offset];
      var n := SerializeValue(row[i], schema[i], buf, start + offset);
      Extend(buf, start, offset, n, before);
      offset := offset + n;
    }
    assert row[..|schema|] == row && schema[..|schema|] == schema;
  }

  lemma NothingEncoded(row: Row, schema: Schema)
    requires WellTypedRow(row, schema)
    ensures EncodeRow(row[..0], schema[..0]) == []
  {
  }

  lemma Extend(buf: array<byte>, start: nat, offset: nat, n: nat, before: seq<byte>)
    requires start + offset + n <= buf.Length && buf[..start + offset] == before
    ensures buf[start..start + (offset + n)] == before[start..] + buf[start + offset..start + offset + n]
    ensures buf[..start] == before[..start]
  {
  }

  /** deserialize_char: zeros are written over the string from its end backwards, as long as spaces are met. */
  method DeserializeChar(bytes: seq<byte>) returns (s: seq<byte>)
    requires bytes != []
    ensures s == CString(Trim(bytes))
  {
    hide Trim, CString;
    var str := new byte[|bytes| + 1](_ => 0);
    Put(str, 0, bytes);
    assert bytes[..|bytes|] == bytes;
    var end := |bytes|;
    while end > 0 && bytes[end - 1] == SPACE
      invariant 0 <= end <= |bytes| && Trim(bytes) == Trim(bytes[..end])
      invariant str[..end] == bytes[..end] && str[end] == 0
    {
      TrimStep(bytes, end);
      assert str[..end - 1] == str[..end][..end - 1] == bytes[..end][..end - 1] == bytes[..end - 1];
      end := end - 1;
      str[end] := 0;
    }
    TrimStep(bytes, end);
    s := CString(str[..]);
    CStringOfPadded(bytes[..end], str[..]);
  }

  lemma TrimStep(s: seq<byte>, end: nat)
    requires end <= |s|
    ensures end > 0 && s[end - 1] == SPACE ==> Trim(s[..end]) == Trim(s[..end - 1])
    ensures !(end > 0 && s[end - 1] == SPACE) ==> Trim(s[..end]) == s[..end]
  {
    if end > 0 { assert s[..end][..end - 1] == s[..end - 1]; }
  }

  lemma {:induction false} CStringOfPadded(t: seq<byte>, s: seq<byte>)
    requires |t| < |s| && s[..|t|] == t && s[|t|] == 0
    ensures CString(s) == CString(t)
    decreases |t|
  {
    if t != [] && t[0] != 0 {
      assert s[1..][..|t[1..]|] == t[1..];
      CStringOfPadded(t[1..], s[1..]);
    }
  }

  /** The deserialize function of each type. */
  method DeserializeValue(buf: seq<byte>, off: nat, rt: ResolvedType) returns (n: nat, v: DataValue)
    requires off <= |buf| && CanDecode(buf[off..], rt)
    ensures n == Width(buf[off..], rt) && v == DecodeValue(buf[off..], rt)
  {
    var s := buf[off..];
    match rt.columnType
    case IntType =>
      return rt.byteLen, IntVal(IntFrom(buf[off], buf[off + 1], buf[off + 2], buf[off + 3]));
    case VarcharType =>
      var len := buf[off] as nat;
      assert buf[off + 1..off + 1 + len] == s[1..Width(s, rt)];
      return len + 1, StrVal(CString(buf[off + 1..off + 1 + len]));
    case CharType =>
      assert buf[off..off + rt.byteLen] == s[..rt.byteLen];
      var str := DeserializeChar(buf[off..off + rt.byteLen]);
      return rt.byteLen, StrVal(str);
    case BinaryType =>
      assert buf[off..off + rt.byteLen] == s[..rt.byteLen];
      return rt.byteLen, BinVal(buf[off..off + rt.byteLen]);
  }

  /** deserialize_row_data: the same offset running over the same columns. */
  method DeserializeRowData(buf: seq<byte>, schema: Schema) returns (row: Row)
    requires CanDecodeRow(buf, schema)
    ensures row == DecodeRow(buf, schema)
  {
    hide DecodeValue, CanDecode, Width;
    row := [];
    var offset: nat := 0;
    for i := 0 to |schema|
      invariant offset <= |buf| && CanDecodeRow(buf[offset..], schema[i..])
      invariant row + DecodeRow(buf[offset..], schema[i..]) == DecodeRow(buf, schema)
    {
      DecodeStep(buf, offset, schema, i);
      var n, v := DeserializeValue(buf, offset, schema[i]);
      row := row + [v];
      offset := offset + n;
    }
    assert schema[|schema|..] == [];
  }

  lemma DecodeStep(buf: seq<byte>, offset: nat, schema: Schema, i: nat)
    requires offset <= |buf| && i < |schema| && CanDecodeRow(buf[offset..], schema[i..])
    ensures CanDecode(buf[offset..], schema[i]) && offset + Width(buf[offset..], schema[i]) <= |buf|
    ensures CanDecodeRow(buf[offset + Width(buf[offset..], schema[i])..], schema[i + 1..])
    ensures DecodeRow(buf[offset..], schema[i..])
         == [DecodeValue(buf[offset..], schema[i])] + DecodeRow(buf[offset + Width(buf[offset..], schema[i])..], schema[i + 1..])
  {
    assert schema[i..][0] == schema[i] && schema[i..][1..] == schema[i + 1..];
    assert buf[offset..][Width(buf[offset..], schema[i])..] == buf[offset + Width(buf[offset..], schema[i])..];
  }

  // ---------------------------------------------------------------- keys of rows before and after storing

  lemma PaddedPrefix(s: seq<byte>, n: nat, len: nat)
    requires |s| <= n && len <= n
    ensures PartBytes(BinVal(PartBytes(BinVal(s), n)), len) == PartBytes(BinVal(s), len)
  {
  }

  /** A key part takes the same bytes from a binary before and after it is stored. */
  lemma BinaryKeyStable(v: DataValue, rt: ResolvedType, len: nat)
    requires WellTyped(v, rt) && rt.columnType.BinaryType? && len <= rt.byteLen
    ensures PartBytes(Normal(v, rt), len) == PartBytes(v, len)
  {
    PaddedPrefix(v.b, rt.byteLen, len);
  }

  /** From a char it does exactly when trimming takes nothing from the first `len` bytes. */
  lemma {:induction false} CharKeyStable(v: DataValue, rt: ResolvedType, len: nat)
    requires WellTyped(v, rt) && rt.columnType.CharType?
    ensures PartBytes(Normal(v, rt), len) == PartBytes(v, len) <==> |Trim(v.s)| == |v.s| || len <= |Trim(v.s)|
  {
    TrimFacts(v.s, 0);
    var t := Trim(v.s);
    if |t| < |v.s| && |t| < len {
      assert PartBytes(StrVal(t), len)[|t|] == 0;
      assert PartBytes(v, len)[|t|] == v.s[|t|] != 0;
    }
  }
}
