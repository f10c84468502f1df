/** Stored rows in plain bytes: what each type writes, what a char reads back as, and what a frame looks like. */
module RowBytes {
  import opened Ordering
  import opened Values
  import opened KeyOrder
  import opened RowCodec
  import opened DataFile

  /** The character ' '. */
  ghost predicate AllBlank(s: seq<byte>) {
    forall i :: 0 <= i < |s| ==> s[i] == 32
  }

  ghost predicate EndsBlank(s: seq<byte>) {
    s != [] && s[|s| - 1] == 32
  }

  // ---------------------------------------------------------------- what is written

  /** An int is written low byte first, in two's complement. */
  lemma IntAsBytes(n: int, rt: ResolvedType)
    requires rt.columnType.IntType? && -0x8000_0000 <= n < 0x8000_0000
    ensures var e := EncodeValue(IntVal(n), rt);
      && |e| == 4
      && e[0] as int + 0x100 * e[1] as int + 0x1_0000 * e[2] as int + 0x100_0000 * e[3] as int == if n < 0 then n + 0x1_0000_0000 else n
  {
    var u := Unsigned(n);
    assert u / 0x100 / 0x100 == u / 0x1_0000 && u / 0x1_0000 / 0x100 == u / 0x100_0000;
  }

  /** A varchar is its length and its bytes, a binary its bytes and zeros, a char its bytes and blanks, up to the column's length. */
  lemma StringsAsBytes(v: DataValue, rt: ResolvedType)
    requires ValidType(rt) && WellTyped(v, rt)
    ensures var e := EncodeValue(v, rt);
      && (rt.columnType.VarcharType? ==> |e| == 1 + |v.s| && e[0] as nat == |v.s| && e[1..] == v.s)
      && (rt.columnType.CharType? ==> |e| == rt.byteLen && e[..|v.s|] == v.s && AllBlank(e[|v.s|..]))
      && (rt.columnType.BinaryType? ==> |e| == rt.byteLen && e[..|v.b|] == v.b && forall i :: |v.b| <= i < |e| ==> e[i] == 0)
  {
  }

  // ---------------------------------------------------------------- what is read back

  /** A char that does not end in a blank is its own stored value; ints and varchars always are. */
  lemma {:induction false} KeptAsItIs(v: DataValue, rt: ResolvedType, rest: seq<byte>)
    requires ValidType(rt) && WellTyped(v, rt) && !rt.columnType.BinaryType?
    requires rt.columnType.CharType? ==> !EndsBlank(v.s)
    ensures Normal(v, rt) == v
    ensures CanDecode(EncodeValue(v, rt) + rest, rt) && DecodeValue(EncodeValue(v, rt) + rest, rt) == v
  {
    ValueRoundTrip(v, rt, rest);
  }

  /** A binary is read back with zeros up to the column's length. */
  lemma BinaryFilledUp(b: seq<byte>, rt: ResolvedType, rest: seq<byte>)
    requires ValidType(rt) && WellTyped(BinVal(b), rt) && rt.columnType.BinaryType?
    ensures CanDecode(EncodeValue(BinVal(b), rt) + rest, rt)
    ensures var v := DecodeValue(EncodeValue(BinVal(b), rt) + rest, rt);
      v.BinVal? && |v.b| == rt.byteLen && v.b[..|b|] == b && forall i :: |b| <= i < |v.b| ==> v.b[i] == 0
  {
    ValueRoundTrip(BinVal(b), rt, rest);
  }

  /** Trailing blanks of a char, and nothing else, are lost. */
  lemma {:induction false} TrailingBlanksLost(s: seq<byte>, blanks: seq<byte>, rt: ResolvedType, rest: seq<byte>)
    requires ValidType(rt) && rt.columnType.CharType? && WellTyped(StrVal(s + blanks), rt)
    requires !EndsBlank(s) && AllBlank(blanks)
    ensures Normal(StrVal(s + blanks), rt) == StrVal(s)
    ensures CanDecode(EncodeValue(StrVal(s + blanks), rt) + rest, rt)
    ensures DecodeValue(EncodeValue(StrVal(s + blanks), rt) + rest, rt) == StrVal(s)
  {
    ValueRoundTrip(StrVal(s + blanks), rt, rest);
    assert blanks == Spaces(|blanks|);
    TrimFacts(s, |blanks|);
  }

  // ---------------------------------------------------------------- frames

  /** Appending a row appends a zero flag, the frame's size, low byte first, and the encoded columns. */
  lemma {:induction false} AppendedBytes(log: Log, schema: Schema, row: Row)
    requires ValidLog(log, schema) && ValidSchema(schema) && StorableRow(row, schema)
    ensures var more := log + [Record(|Bytes(log, schema)|, false, row)];
      var size := 3 + |EncodeRow(row, schema)|;
      && size < 0x1_0000
      && Bytes(more, schema) == Bytes(log, schema) + [0, (size % 0x100) as byte, (size / 0x100) as byte] + EncodeRow(row, schema)
  {
    hide EncodeRow, Bytes, ValidLog;
    RowFits(row, schema);
    AppendKeeps(log, schema, row);
    var size := 3 + |EncodeRow(row, schema)|;
    assert size / 0x100 % 0x100 == size / 0x100;
    assert RowFrame(Record(|Bytes(log, schema)|, false, row), schema)
        == [0] + [(size % 0x100) as byte, (size / 0x100) as byte] + EncodeRow(row, schema);
  }

  /** The columns of a row follow one another. */
  lemma EncodedInTurn(v: DataValue, row: Row, rt: ResolvedType, schema: Schema)
    requires WellTypedRow([v] + row, [rt] + schema)
    ensures WellTyped(v, rt) && WellTypedRow(row, schema)
    ensures EncodeRow([v] + row, [rt] + schema) == EncodeValue(v, rt) + EncodeRow(row, schema)
  {
    assert ([v] + row)[1..] == row && ([rt] + schema)[1..] == schema;
    assert ([v] + row)[0] == v && ([rt] + schema)[0] == rt;
    assert forall i :: 0 <= i < |row| ==> ([v] + row)[i + 1] == row[i] && ([rt] + schema)[i + 1] == schema[i];
  }
}
