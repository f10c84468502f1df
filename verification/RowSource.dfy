/** The two ways rows reach an executor: a walk over the data file, or one row found through an index. */
module RowSources {
  import opened Ordering
  import opened Values
  import opened RowCodec
  import opened DataFile

  /** The live rows from record `i` on, in file order, with their offsets. */
  ghost function LiveFrom(log: Log, i: nat): seq<StoredRow>
    requires i <= |log|
    decreases |log| - i
  {
    if i == |log| then []
    else if log[i].dead then LiveFrom(log, i + 1)
    else [StoredRow(log[i].row, log[i].at)] + LiveFrom(log, i + 1)
  }

  ghost function LiveRows(log: Log): seq<StoredRow> {
    LiveFrom(log, 0)
  }

  /** The offset of record `i`, or the end of the file. */
  ghost function OffsetAt(log: Log, schema: Schema, i: nat): nat
    requires i <= |log|
  {
    if i < |log| then log[i].at else End(log, schema)
  }

  class RowSource {
    const file: TableFile
    const useIndex: bool
    var fileSize: nat
    var offset: FileOffset
    var hasResult: bool
    var consumed: bool
    /** The record the source is at: the next to be read, or the one the index points to. */
    ghost var current: nat

    ghost predicate Valid()
      reads this, file
    {
      && file.Valid()
      && (!useIndex ==> current <= |file.log| && fileSize == End(file.log, file.schema) && file.pos == OffsetAt(file.log, file.schema, current))
      && (useIndex && hasResult ==> current < |file.log| && offset == file.log[current].at)
    }

    /** The rows still to come. */
    ghost function Remaining(): seq<StoredRow>
      requires Valid()
      reads this, file
    {
      if !useIndex then LiveFrom(file.log, current)
      else if consumed || !hasResult || file.log[current].dead then []
      else [StoredRow(file.log[current].row, offset)]
    }

    /** table_scan_create. */
    constructor TableScan(file: TableFile)
      requires file.Valid()
      modifies file`pos
      ensures Valid() && this.file == file && Remaining() == LiveRows(file.log)
    {
      this.file, useIndex := file, false;
      fileSize, offset, hasResult, consumed, current := |file.bytes|, 0, false, false, 0;
      new;
      file.pos := 0;
      FirstOffset(file.log, file.schema);
    }

    /** index_scan_create: the index has already been asked; `found` and `offset` are its answer. */
    constructor IndexScan(file: TableFile, found: bool, offset: FileOffset, ghost i: nat)
      requires file.Valid() && (found ==> i < |file.log| && offset == file.log[i].at)
      ensures Valid() && this.file == file && useIndex
      ensures Remaining() == if found && !file.log[i].dead then [StoredRow(file.log[i].row, offset)] else []
    {
      this.file, useIndex := file, true;
      fileSize, this.offset, hasResult, consumed, current := 0, offset, found, false, i;
    }

    /** table_scan_next: past deleted rows to the next live one, or to the end. */
    method TableScanNext() returns (found: bool, out: StoredRow)
      requires Valid() && !useIndex
      modifies this, file`pos
      ensures Valid()
      ensures found <==> old(Remaining()) != []
      ensures found ==> old(Remaining()) == [out] + Remaining()
    {
      hide ValidLog, Bytes;
      out := StoredRow([], 0);
      while true
        invariant Valid() && file.log == old(file.log) && file.bytes == old(file.bytes)
        invariant Remaining() == old(Remaining())
        decreases |file.log| - current
      {
        var at := file.pos;
        WhetherAtEnd(file.log, file.schema, current);
        if at >= fileSize {
          return false, out;
        }
        var i := current;
        var live, row := file.ReadCurrentRow(i);
        NextOffset(file.log, file.schema, i);
        current := i + 1;
        if live {
          return true, StoredRow(row, at);
        }
      }
    }

    /** index_scan_next: the one row, once, if it is still there. */
    method IndexScanNext() returns (found: bool, out: StoredRow)
      requires Valid() && useIndex
      modifies this, file`pos
      ensures Valid()
      ensures found <==> old(Remaining()) != []
      ensures found ==> old(Remaining()) == [out] + Remaining()
    {
      hide ValidLog, Bytes;
      out := StoredRow([], 0);
      if consumed || !hasResult {
        return false, out;
      }
      consumed := true;
      var row;
      found, row := file.LoadRow(offset, current);
      out := StoredRow(row, offset);
    }

    method GetNext() returns (found: bool, out: StoredRow)
      requires Valid()
      modifies this, file`pos
      ensures Valid()
      ensures found <==> old(Remaining()) != []
      ensures found ==> old(Remaining()) == [out] + Remaining()
    {
      if useIndex {
        found, out := IndexScanNext();
      } else {
        found, out := TableScanNext();
      }
    }
  }

  lemma FirstOffset(log: Log, schema: Schema)
    requires ValidLog(log, schema)
    ensures OffsetAt(log, schema, 0) == 0
  {
    if log != [] { FirstAt(log, schema); }
  }

  lemma {:induction false} FirstAt(log: Log, schema: Schema)
    requires ValidLog(log, schema) && log != []
    ensures log[0].at == 0
    decreases |log|
  {
    if |log| > 1 { FirstAt(log[..|log| - 1], schema); } else { assert log[..0] == []; }
  }

  lemma WhetherAtEnd(log: Log, schema: Schema, i: nat)
    requires ValidLog(log, schema) && i <= |log|
    ensures OffsetAt(log, schema, i) >= End(log, schema) <==> i == |log|
  {
    if i < |log| { FramesInPlace(log, schema, i); }
  }

  lemma NextOffset(log: Log, schema: Schema, i: nat)
    requires ValidLog(log, schema) && i < |log|
    ensures NextAt(log, schema, i) == OffsetAt(log, schema, i + 1)
  {
    FramesInPlace(log, schema, i);
  }
}
