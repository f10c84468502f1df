/** backfill_index: a new index built from the rows that are already there. */
module Backfill {
  import opened Ordering
  import opened Values
  import opened KeyOrder
  import opened RowCodec
  import opened DataFile
  import opened RowSources
  import opened Agreement

  lemma PrefixGrows(log: Log, i: nat)
    requires i < |log|
    ensures log[..i + 1] == log[..i] + [log[i]]
    ensures !log[i].dead ==> log[i] == Record(log[i].at, false, log[i].row)
  {
  }

  /** A deleted row changes nothing. */
  lemma {:induction false} AgreesSkip(m: Index, parts: seq<KeyPart>, log: Log, i: nat)
    requires i < |log| && log[i].dead && Agrees(m, parts, log[..i])
    ensures Agrees(m, parts, log[..i + 1])
  {
    hide KeyIn;
    var front, more := log[..i], log[..i + 1];
    forall k | k in m
      ensures exists j :: LiveAt(more, j) && KeyIn(parts, more[j].row) == k
    {
      var j :| LiveAt(front, j) && KeyIn(parts, front[j].row) == k;
      assert LiveAt(more, j);
    }
    forall j | LiveAt(more, j)
      ensures KeyIn(parts, more[j].row) in m && m[KeyIn(parts, more[j].row)] == more[j].at
    {
      assert LiveAt(front, j);
    }
  }

  lemma {:induction false} SharedKey(m: Index, parts: seq<KeyPart>, log: Log, i: nat)
    requires i < |log| && !log[i].dead && Agrees(m, parts, log[..i]) && KeyIn(parts, log[i].row) in m
    ensures !KeysUnique(parts, log)
  {
    hide KeyIn;
    var j :| LiveAt(log[..i], j) && KeyIn(parts, log[..i][j].row) == KeyIn(parts, log[i].row);
    assert LiveAt(log, j) && LiveAt(log, i);
  }

  /** The index of all live rows, or none: and none exactly when two of them have the same key. */
  method BackfillIndex(file: TableFile, parts: seq<KeyPart>) returns (index: Option<Index>)
    requires file.Valid()
    modifies file`pos
    ensures index.Some? ==> Agrees(index.value, parts, file.log)
    ensures index.None? <==> !KeysUnique(parts, file.log)
  {
    hide KeyIn, ValidLog, Bytes, Agrees, KeysUnique;
    var fileSize := |file.bytes|;
    file.pos := 0;
    var offset := 0;
    ghost var i := 0;
    var m: Index := map[];
    FirstOffset(file.log, file.schema);
    EmptyAgrees(parts);
    assert file.log[..0] == [];
    while offset < fileSize
      invariant file.Valid() && i <= |file.log| && file.pos == offset == OffsetAt(file.log, file.schema, i)
      invariant Agrees(m, parts, file.log[..i])
      decreases |file.log| - i
    {
      WhetherAtEnd(file.log, file.schema, i);
      PrefixGrows(file.log, i);
      var live, row := file.ReadCurrentRow(i);
      if live {
        if KeyIn(parts, row) in m {
          SharedKey(m, parts, file.log, i);
          return None;
        }
        AgreesAppend(m, parts, file.log[..i], offset, row);
        m := m[KeyIn(parts, row) := offset];
      } else {
        AgreesSkip(m, parts, file.log, i);
      }
      NextOffset(file.log, file.schema, i);
      offset := file.pos;
      i := i + 1;
    }
    WhetherAtEnd(file.log, file.schema, i);
    assert file.log[..i] == file.log;
    AgreementMeansUnique(m, parts, file.log, file.schema);
    return Some(m);
  }
}
