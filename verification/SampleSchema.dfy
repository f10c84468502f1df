/** One schema file, written out: what a table prints as, and what the file loads as. */
module SampleSchema {
  import opened Ordering
  import opened Values
  import opened KeyOrder
  import opened Literals
  import opened SchemaText
  import opened SchemaLoad
  import opened SchemaTokens
  import opened SchemaRoundTrip

  ghost const Id := Column("id", ResolvedType(IntType, 4), Some(IntVal(7)))
  ghost const Name := Column("name", ResolvedType(VarcharType, 20), None)
  ghost const Raw := Column("raw", ResolvedType(BinaryType, 2), Some(BinVal([0x01, 0xff])))
  ghost const Code := Column("code", ResolvedType(CharType, 3), Some(StrVal([97, 98])))

  ghost const ById := TableIndex("by_id", true, 4096, 4, ["id"], [KeyPart(0, IntType, 4)])
  ghost const ByName :=
    TableIndex("by_name", false, 4096, 13, ["name", "code"], [KeyPart(1, VarcharType, 10), KeyPart(3, CharType, 3)])

  ghost const Sample := Table([Id, Name, Raw, Code], [ById, ByName])

  // each line in the words it is put together from

  ghost const IdLine := "    " + "id" + " " + "int" + (" default " + "7") + ",\n"
  ghost const NameLine := "    " + "name" + " " + ("varchar" + ("(" + ("20" + ")"))) + "" + ",\n"
  ghost const RawLine := "    " + "raw" + " " + ("binary" + ("(" + ("2" + ")"))) + (" default " + ("0x" + "01ff")) + ",\n"
  ghost const CodeLine := "    " + "code" + " " + ("char" + ("(" + ("3" + ")"))) + (" default " + ("\"" + "ab" + "\"")) + ",\n"
  ghost const ByIdLine := "    " + "btree" + " unique " + "by_id" + " (" + ("id" + "(" + "4" + ")") + "),\n"
  ghost const ByNameLine := "    " + "btree" + " " + "by_name" + " (" + ("name" + "(" + "10" + ")" + ", " + ("code" + "(" + "3" + ")")) + "),\n"

  ghost const SampleFile :=
    "table (\n" + "  columns (\n" + (IdLine + NameLine + RawLine + CodeLine) + "  ),\n"
    + "  indexes (\n" + (ByIdLine + ByNameLine) + "  ),\n" + ")\n"

  lemma SmallNumbers()
    ensures Digits(2) == "2" && Digits(3) == "3" && Digits(4) == "4" && Digits(7) == "7" && Digits(10) == "10" && Digits(20) == "20"
  {
    assert Digits(10) == Digits(1) + [DigitChar(0)] && Digits(20) == Digits(2) + [DigitChar(0)];
  }

  lemma SampleBinary()
    ensures HexText([0x01, 0xff]) == "01ff"
  {
    HexTextStep([], 0x01);
    HexTextStep([0x01], 0xff);
    assert [] + [0x01 as byte] == [0x01] && [0x01 as byte] + [0xff] == [0x01, 0xff];
    assert HexText([]) == "" && HexChar(0) == '0' && HexChar(1) == '1' && HexChar(15) == 'f';
    assert HexText([0x01]) == "01";
  }

  lemma ColumnLines()
    ensures ColumnText(Id) == IdLine && ColumnText(Name) == NameLine && ColumnText(Raw) == RawLine && ColumnText(Code) == CodeLine
  {
    hide Digits, HexText, Chars;
    SmallNumbers();
    SampleBinary();
    SampleString();
  }

  lemma SampleString()
    ensures Chars([97, 98]) == "ab"
  {
  }

  lemma IndexLines()
    ensures IndexText(ById) == ByIdLine && IndexText(ByName) == ByNameLine
  {
    hide Digits;
    SmallNumbers();
    var p, c := ByName.parts, ByName.columns;
    assert p[1..] == [p[1]] && c[1..] == [c[1]];
    assert PartsText(c[1..], p[1..]) == PartText("code", 3);
    assert PartsText(c, p) == PartText("name", 10) + ", " + PartText("code", 3);
  }

  /** What the table prints as. */
  lemma {:induction false} SamplePrinted()
    ensures PartsNamed(Sample.indexes) && FileText(Sample) == SampleFile
  {
    hide ColumnText, IndexText, ColumnsText, IndexesText, IdLine, NameLine, RawLine, CodeLine, ByIdLine, ByNameLine;
    ColumnLines();
    IndexLines();
    FourColumns(Id, Name, Raw, Code);
    TwoIndexes(ById, ByName);
  }

  lemma FourColumns(a: Column, b: Column, c: Column, d: Column)
    ensures ColumnsText([a, b, c, d]) == ColumnText(a) + ColumnText(b) + ColumnText(c) + ColumnText(d)
  {
    hide ColumnText;
    assert [a, b, c, d][..3] == [a, b, c] && [a, b, c][..2] == [a, b] && [a, b][..1] == [a] && [a][..0] == [];
    assert ColumnsText([a]) == ColumnText(a);
    assert ColumnsText([a, b]) == ColumnText(a) + ColumnText(b);
    assert ColumnsText([a, b, c]) == ColumnText(a) + ColumnText(b) + ColumnText(c);
  }

  lemma TwoIndexes(a: TableIndex, b: TableIndex)
    requires |a.columns| == |a.parts| && |b.columns| == |b.parts|
    ensures IndexesText([a, b]) == IndexText(a) + IndexText(b)
  {
    hide IndexText;
    assert [a, b][..1] == [a] && [a][..0] == [];
    assert IndexesText([a]) == IndexText(a);
  }

  /** And what the file loads as. */
  lemma {:induction false} SampleLoaded()
    ensures LoadText(SampleFile) == Success(Sample)
  {
    hide FileText, LoadText, SampleFile;
    SampleSavable();
    SamplePrinted();
    SchemaRoundTrips(Sample);
  }

  lemma SampleSavable()
    ensures Savable(Sample) && Loadable(Sample)
  {
    hide IsName;
    Names();
    assert SavableColumn(Id) && SavableColumn(Name) && SavableColumn(Raw) && SavableColumn(Code);
    var p := ByName.parts;
    assert p[1..] == [p[1]] && p[1..][1..] == [] && KeySize(p) == 13;
    assert ById.parts[1..] == [] && KeySize(ById.parts) == 4;
    assert SavableIndex(ById, Sample.columns) && SavableIndex(ByName, Sample.columns);
  }

  lemma Names()
    ensures IsName("id") && IsName("name") && IsName("raw") && IsName("code") && IsName("by_id") && IsName("by_name")
  {
  }
}
