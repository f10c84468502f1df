/** The data file of a table: an append-only log of framed rows, deleted by setting a flag byte in place. */
module DataFile {
  import opened Ordering
  import opened Values
  import opened KeyOrder
  import opened RowCodec

  /** One row of the log: where its frame starts, whether it is deleted, and the row as it reads back. */
  datatype Record = Record(at: nat, dead: bool, row: Row)

  type Log = seq<Record>

  datatype StoredRow = StoredRow(row: Row, offset: FileOffset)

  /** A row as it reads back from the file. */
  ghost predicate StorableRow(row: Row, schema: Schema) {
    WellTypedRow(row, schema) && NormalRow(row, schema) == row
  }

  /** The two bytes of a size field, low byte first. */
  function SizeField(n: nat): (s: seq<byte>)
    ensures |s| == ROW_SIZE_FIELD
  {
    [(n % 0x100) as byte, (n / 0x100 % 0x100) as byte]
  }

  ghost function Data(r: Record, schema: Schema): seq<byte> {
    if WellTypedRow(r.row, schema) then EncodeRow(r.row, schema) else []
  }

  /** Flags, frame size and data. */
  ghost function RowFrame(r: Record, schema: Schema): (s: seq<byte>)
    ensures |s| == HEADER_SIZE + |Data(r, schema)|
  {
    [if r.dead then 1 else 0] + SizeField(HEADER_SIZE + |Data(r, schema)|) + Data(r, schema)
  }

  ghost function Bytes(log: Log, schema: Schema): seq<byte> {
    if log == [] then [] else Bytes(log[..|log| - 1], schema) + RowFrame(log[|log| - 1], schema)
  }

  ghost function End(log: Log, schema: Schema): nat {
    |Bytes(log, schema)|
  }

  /** Every record reads back as it is, and knows where its frame starts. */
  ghost predicate ValidLog(log: Log, schema: Schema) {
    log != [] ==>
      var front, last := log[..|log| - 1], log[|log| - 1];
      ValidLog(front, schema) && StorableRow(last.row, schema) && last.at == End(front, schema)
  }

  /** Where the record after `i` starts. */
  ghost function NextAt(log: Log, schema: Schema, i: nat): nat
    requires i < |log|
  {
    log[i].at + |RowFrame(log[i], schema)|
  }

  lemma Unfold(log: Log, schema: Schema)
    requires log != []
    ensures var front, last := log[..|log| - 1], log[|log| - 1];
      && Bytes(log, schema) == Bytes(front, schema) + RowFrame(last, schema)
      && (ValidLog(log, schema) <==> ValidLog(front, schema) && StorableRow(last.row, schema) && last.at == End(front, schema))
  {
  }

  lemma {:induction false} FramesInPlace(log: Log, schema: Schema, i: nat)
    requires ValidLog(log, schema) && i < |log|
    ensures StorableRow(log[i].row, schema) && log[i].at < NextAt(log, schema, i) <= End(log, schema)
    ensures Bytes(log, schema)[log[i].at..NextAt(log, schema, i)] == RowFrame(log[i], schema)
    ensures NextAt(log, schema, i) == if i + 1 < |log| then log[i + 1].at else End(log, schema)
    decreases |log|
  {
    hide RowFrame, StorableRow, Bytes, ValidLog;
    Unfold(log, schema);
    var n := |log| - 1;
    var front := log[..n];
    if i < n {
      FramesInPlace(front, schema, i);
      assert front[i] == log[i] && (i + 1 < n ==> front[i + 1] == log[i + 1]);
      SliceOfFront(Bytes(front, schema), RowFrame(log[n], schema), log[i].at, NextAt(log, schema, i));
    } else {
      SliceOfBack(Bytes(front, schema), RowFrame(log[n], schema));
    }
  }

  lemma SliceOfBack(a: seq<byte>, b: seq<byte>)
    ensures (a + b)[|a|..|a| + |b|] == b
  {
  }

  lemma SliceOfFront(a: seq<byte>, b: seq<byte>, i: nat, j: nat)
    requires i <= j <= |a|
    ensures (a + b)[i..j] == a[i..j]
  {
  }

  lemma {:induction false} OffsetsIncrease(log: Log, schema: Schema, i: nat, j: nat)
    requires ValidLog(log, schema) && i < j < |log|
    ensures log[i].at < log[j].at
    decreases j
  {
    hide ValidLog, RowFrame, Bytes;
    FramesInPlace(log, schema, j - 1);
    if i < j - 1 { OffsetsIncrease(log, schema, i, j - 1); }
  }

  lemma OffsetsDiffer(log: Log, schema: Schema, i: nat, j: nat)
    requires ValidLog(log, schema) && i < |log| && j < |log| && log[i].at == log[j].at
    ensures i == j
  {
    if i < j { OffsetsIncrease(log, schema, i, j); }
    if j < i { OffsetsIncrease(log, schema, j, i); }
  }

  /** Appending a row leaves the frames before it where they are. */
  lemma AppendKeeps(log: Log, schema: Schema, row: Row)
    requires ValidLog(log, schema) && StorableRow(row, schema)
    ensures var more := log + [Record(End(log, schema), false, row)];
      && ValidLog(more, schema)
      && Bytes(more, schema) == Bytes(log, schema) + RowFrame(Record(End(log, schema), false, row), schema)
  {
    hide RowFrame, StorableRow;
    var more := log + [Record(End(log, schema), false, row)];
    assert more[..|more| - 1] == log;
  }

  function Kill(log: Log, i: nat): Log
    requires i < |log|
  {
    log[i := log[i].(dead := true)]
  }

  lemma FlagInFrame(r: Record, schema: Schema)
    ensures RowFrame(r.(dead := true), schema) == RowFrame(r, schema)[0 := 1]
  {
  }

  lemma UpdateInFront(a: seq<byte>, b: seq<byte>, i: nat)
    requires i < |a|
    ensures (a + b)[i := 1] == a[i := 1] + b
  {
  }

  lemma UpdateBehind(a: seq<byte>, b: seq<byte>)
    requires b != []
    ensures (a + b)[|a| := 1] == a + b[0 := 1]
  {
  }

  /** Setting one flag byte deletes one record and disturbs no frame. */
  lemma {:induction false} KillKeeps(log: Log, schema: Schema, i: nat)
    requires ValidLog(log, schema) && i < |log|
    ensures ValidLog(Kill(log, i), schema) && log[i].at < End(log, schema)
    ensures Bytes(Kill(log, i), schema) == Bytes(log, schema)[log[i].at := 1]
    decreases |log|
  {
    hide RowFrame, StorableRow, Bytes, ValidLog;
    var n := |log| - 1;
    var front, dead := log[..n], Kill(log, i);
    Unfold(log, schema);
    Unfold(dead, schema);
    if i < n {
      KillKeeps(front, schema, i);
      assert dead[..n] == Kill(front, i) && dead[n] == log[n] && front[i] == log[i];
      UpdateInFront(Bytes(front, schema), RowFrame(log[n], schema), log[i].at);
    } else {
      assert dead[..n] == front;
      FlagInFrame(log[n], schema);
      UpdateBehind(Bytes(front, schema), RowFrame(log[n], schema));
    }
  }

  // ---------------------------------------------------------------- the file and its operations

  class TableFile {
    var bytes: seq<byte>
    var pos: nat
    const schema: Schema
    ghost var log: Log

    ghost predicate Valid()
      reads this
    {
      ValidSchema(schema) && ValidLog(log, schema) && bytes == Bytes(log, schema)
    }

    constructor (schema: Schema)
      requires ValidSchema(schema)
      ensures Valid() && this.schema == schema && log == [] && pos == 0
    {
      this.schema := schema;
      bytes, pos, log := [], 0, [];
    }

    /** storage_insert_row: flags, size and data, put together in a buffer and appended. */
    method InsertRow(values: Row) returns (offset: nat)
      requires Valid() && WellTypedRow(values, schema)
      modifies this
      ensures Valid() && offset == old(End(log, schema))
      ensures log == old(log) + [Record(offset, false, NormalRow(values, schema))]
    {
      hide EncodeRow, Bytes, ValidLog;
      RowFits(values, schema);
      NormalRowIsFixed(values, schema);
      ghost var r := Record(End(log, schema), false, NormalRow(values, schema));
      AppendKeeps(log, schema, r.row);
      FrameOfValues(values, schema, r.at);
      var buf := new byte[MAX_DATA_SIZE + HEADER_SIZE](_ => 0);
      var dataSize := SerializeRowData(values, schema, buf, HEADER_SIZE);
      buf[0] := 0;
      var rowSize := HEADER_SIZE + dataSize;
      Put(buf, ROW_FLAGS_SIZE, SizeField(rowSize));
      HeaderAndData(buf, dataSize, EncodeRow(values, schema));
      offset := |bytes|;
      bytes := bytes + buf[..rowSize];
      pos := |bytes|;
      log := log + [r];
    }

    /** storage_delete_row: the flag byte at the row's offset. */
    method DeleteRow(offset: nat, ghost i: nat)
      requires Valid() && i < |log| && offset == log[i].at
      modifies this
      ensures Valid() && log == Kill(old(log), i) && pos == offset + 1
    {
      KillKeeps(log, schema, i);
      hide Bytes, ValidLog;
      bytes := bytes[offset := 1];
      pos := offset + 1;
      log := Kill(log, i);
    }

    /** storage_read_current_row: a deleted row is skipped, any other decoded; either way the next one is current. */
    method ReadCurrentRow(ghost i: nat) returns (live: bool, row: Row)
      requires Valid() && i < |log| && pos == log[i].at
      modifies this`pos
      ensures pos == NextAt(log, schema, i)
      ensures live <==> !log[i].dead
      ensures live ==> row == log[i].row
    {
      hide Bytes, ValidLog, DecodeRow, CanDecodeRow;
      ghost var n := CurrentFrame(log, schema, i);
      var flags := bytes[pos];
      var rowSize := bytes[pos + 1] as nat + 0x100 * bytes[pos + 2] as nat - HEADER_SIZE;
      pos := pos + HEADER_SIZE;
      if flags % 2 == 1 {
        pos := pos + rowSize;
        return false, [];
      }
      var data := bytes[pos..pos + rowSize];
      pos := pos + rowSize;
      row := DeserializeRowData(data, schema);
      return true, row;
    }

    /** storage_load_row: the row at a known offset. */
    method LoadRow(offset: nat, ghost i: nat) returns (live: bool, row: Row)
      requires Valid() && i < |log| && offset == log[i].at
      modifies this`pos
      ensures live <==> !log[i].dead
      ensures live ==> row == log[i].row
    {
      pos := offset;
      live, row := ReadCurrentRow(i);
    }
  }

  /** What reading finds at an offset: a header, and `n` bytes of data that decode to the row. */
  ghost predicate Reads(bytes: seq<byte>, at: nat, n: nat, dead: bool, row: Row, schema: Schema) {
    && at + HEADER_SIZE + n <= |bytes|
    && bytes[at] == (if dead then 1 else 0)
    && bytes[at + 1] as nat + 0x100 * bytes[at + 2] as nat == HEADER_SIZE + n
    && CanDecodeRow(bytes[at + HEADER_SIZE..at + HEADER_SIZE + n], schema)
    && DecodeRow(bytes[at + HEADER_SIZE..at + HEADER_SIZE + n], schema) == row
  }

  lemma CurrentFrame(log: Log, schema: Schema, i: nat) returns (n: nat)
    requires ValidLog(log, schema) && ValidSchema(schema) && i < |log|
    ensures Reads(Bytes(log, schema), log[i].at, n, log[i].dead, log[i].row, schema)
    ensures NextAt(log, schema, i) == log[i].at + HEADER_SIZE + n
  {
    hide Bytes, ValidLog, Data, RowFrame, StorableRow, DecodeRow, CanDecodeRow;
    n := |Data(log[i], schema)|;
    FramesInPlace(log, schema, i);
    FrameFields(log[i], schema);
    FieldsInFile(Bytes(log, schema), log[i].at, RowFrame(log[i], schema));
    DataDecodes(log[i], schema);
  }

  lemma FrameOfValues(values: Row, schema: Schema, at: nat)
    requires WellTypedRow(values, schema) && ValidSchema(schema)
    ensures WellTypedRow(NormalRow(values, schema), schema)
    ensures RowFrame(Record(at, false, NormalRow(values, schema)), schema)
         == [0] + SizeField(HEADER_SIZE + |EncodeRow(values, schema)|) + EncodeRow(values, schema)
  {
    NormalRowIsFixed(values, schema);
  }

  lemma HeaderAndData(buf: array<byte>, n: nat, data: seq<byte>)
    requires HEADER_SIZE + n <= buf.Length && buf[0] == 0
    requires buf[ROW_FLAGS_SIZE] == SizeField(HEADER_SIZE + n)[0] && buf[ROW_FLAGS_SIZE + 1] == SizeField(HEADER_SIZE + n)[1]
    requires buf[HEADER_SIZE..HEADER_SIZE + n] == data
    ensures buf[..HEADER_SIZE + n] == [0] + SizeField(HEADER_SIZE + n) + data
  {
    assert buf[..HEADER_SIZE + n] == buf[..HEADER_SIZE] + buf[HEADER_SIZE..HEADER_SIZE + n];
  }

  /** The fields of a frame. */
  lemma FrameFields(r: Record, schema: Schema)
    requires StorableRow(r.row, schema) && ValidSchema(schema)
    ensures var f, n := RowFrame(r, schema), |Data(r, schema)|;
      && f[0] == (if r.dead then 1 else 0)
      && f[1] as nat + 0x100 * f[2] as nat == HEADER_SIZE + n
      && f[HEADER_SIZE..] == Data(r, schema)
  {
    RowFits(r.row, schema);
    hide EncodeRow;
  }

  lemma FieldsInFile(bytes: seq<byte>, pos: nat, f: seq<byte>)
    requires pos + |f| <= |bytes| && bytes[pos..pos + |f|] == f && |f| >= HEADER_SIZE
    ensures bytes[pos] == f[0] && bytes[pos + 1] == f[1] && bytes[pos + 2] == f[2]
    ensures bytes[pos + HEADER_SIZE..pos + |f|] == f[HEADER_SIZE..]
  {
    var s := bytes[pos..pos + |f|];
    assert s[0] == bytes[pos] && s[1] == bytes[pos + 1] && s[2] == bytes[pos + 2];
    assert bytes[pos + HEADER_SIZE..pos + |f|] == s[HEADER_SIZE..];
  }

  lemma DataDecodes(r: Record, schema: Schema)
    requires StorableRow(r.row, schema) && ValidSchema(schema)
    ensures CanDecodeRow(Data(r, schema), schema) && DecodeRow(Data(r, schema), schema) == r.row
  {
    RowRoundTrip(r.row, schema, []);
    assert EncodeRow(r.row, schema) + [] == EncodeRow(r.row, schema);
  }
}
