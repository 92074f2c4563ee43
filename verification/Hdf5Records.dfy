/** Which records survive the HDF5 subset: every value under its key, with its type. */
module Hdf5Records {
  import opened ByteStrings
  import opened Columns
  import opened Hdf5Directory
  import opened Hdf5Format
  import opened Hdf5Theorems
  import opened KeyOrder
  import opened PlainValues
  import opened Records
  import opened Segments
  import opened Uir

  // What is read from what is written.
  function ReadBack(lib: Library, n: Node): Option<Node> {
    var data := Encoded(lib, n);
    if data.None? then None else Parsed(data.value)
  }

  function Cols(n: Node): seq<Column> {
    ColumnsOf(RowsOf(n), CodeOf)
  }

  // Main result: aligned records come back from a file - as many, each with every key, type and value - if and
  // only if their values have the types that the format supports and the directory can describe their columns.
  lemma RecordsRoundTripIff(lib: Library, n: Node)
    requires Aligned(RowsOf(n)) && |FileOf(lib, Cols(n))| < TWO_64
    ensures Survive(ReadBack(lib, n), RowsOf(n)) <==> AllSupported(HDF5_CODING, RowsOf(n)) && Describable(Cols(n))
  {
    var rows, cols := RowsOf(n), Cols(n);
    if AllSupported(HDF5_CODING, rows) && Describable(cols) {
      UniformFits(HDF5_CODING, rows);
      WrittenIff(lib, cols);
      ColumnsRoundTrip(lib, cols);
      TableHasRecords(rows, cols);
    }
    if Survive(ReadBack(lib, n), rows) {
      SurvivorsAreDescribable(lib, n);
      SurvivorsAreSupported(lib, n);
    }
  }

  lemma SurvivorsAreDescribable(lib: Library, n: Node)
    requires Aligned(RowsOf(n)) && Survive(ReadBack(lib, n), RowsOf(n))
    ensures Describable(Cols(n))
  {
    var data := Encoded(lib, n).value;
    ReadIsDescribable(data);
    TableIsDescribable(RowsOf(n), Cols(n), ReadFile(data).value);
  }

  // If records come back in the table of describable columns, their own columns are describable.
  lemma TableIsDescribable(rows: seq<Node>, cols: seq<Column>, read: seq<Column>)
    requires Aligned(rows) && cols == ColumnsOf(rows, CodeOf)
    requires Describable(read) && Survive(Some(TableOf(read)), rows)
    ensures Describable(cols)
  {
    TableRows(read);
    AlignedColumns(HDF5_CODING, rows);
    var back, row := RowsOf(TableOf(read))[0], rows[0];
    FieldsAreFew(read, 0, TypeOfCode);
    assert |rows| < TWO_64 && |cols| < TWO_32 by {
      assert SameRecord(back, row) && read[0] in read;
    }
    forall j | 0 <= j < |cols| ensures |cols[j].name| < 0x1_0000 {
      NameSurvives(read, TypeOfCode, back, row, j);
    }
  }

  lemma SurvivorsAreSupported(lib: Library, n: Node)
    requires Aligned(RowsOf(n)) && Survive(ReadBack(lib, n), RowsOf(n))
    requires Describable(Cols(n)) && |FileOf(lib, Cols(n))| < TWO_64
    ensures AllSupported(HDF5_CODING, RowsOf(n))
  {
    var rows, cols := RowsOf(n), Cols(n);
    WrittenIff(lib, cols);
    var data := FileOf(lib, cols);
    var read := ReadFile(data).value;
    ReadIsDescribable(data);
    ReadIsLike(data, cols, PayloadsOf(lib, cols));
    TableRows(read);
    forall r, i | 0 <= r < |rows| && 0 <= i < |rows[r].children| ensures Supported(HDF5_CODING, rows[r].children[i]) {
      SurvivorIsSupported(HDF5_CODING, rows, read, r, RowsOf(TableOf(read))[r]);
    }
  }

  // What is read from a file has the names, types and lengths of the columns written, whatever the values.
  lemma ReadIsLike(data: Bytes, cols: seq<Column>, parts: seq<Bytes>)
    requires |parts| == |cols| && Describable(cols) && data == FileFront(cols, parts) + Concat(parts) && |data| < TWO_64
    requires ReadFile(data).Some?
    ensures Like(ReadFile(data).value, cols)
  {
    var start := DataOffset(cols);
    var head := FrontLeads(cols, parts);
    DirectoryIsFound(head, cols, parts, data, start, Concat(parts), Entries(cols, parts, start));
    ColumnsAreDescribed(data, MetasOf(cols, parts, start));
    forall j | 0 <= j < |cols| ensures Describes(MetaOf(cols[j], OffsetOf(parts, j, start)), ReadFile(data).value[j]) {
      EntryHasOffset(cols, parts, start, j);
    }
  }

  lemma TableHasRecords(rows: seq<Node>, cols: seq<Column>)
    requires Uniform(HDF5_CODING, rows) && cols == ColumnsOf(rows, CodeOf)
    ensures Survive(Some(TableOf(cols)), rows)
  {
    AlignedColumns(HDF5_CODING, rows);
    TableRows(cols);
    var back := RowsOf(TableOf(cols));
    forall r | 0 <= r < |rows| ensures SameRecord(back[r], rows[r]) {
      RecordComesBack(HDF5_CODING, rows, cols, r, back[r]);
    }
  }

  // The records of the table: as many as its first column has values, and none without columns.
  lemma TableRows(cols: seq<Column>)
    ensures var back := RowsOf(TableOf(cols));
            && |back| == (if cols == [] then 0 else |cols[0].values|)
            && forall r | 0 <= r < |back| :: back[r].Node? && back[r].children == FieldsAt(cols, r, TypeOfCode)
  {
    FieldsAreScalars(cols, 0, TypeOfCode);
    SingleRecord(Ascii("Root"), FieldsAt(cols, 0, TypeOfCode));
  }

  // Main result: the number of records survives exactly if there are none or some record has a field.
  // Records without fields leave no column, and without columns their number is lost.
  lemma CountSurvivesIff(lib: Library, n: Node)
    requires NoNil(RowsOf(n)) && Describable(Cols(n)) && AllShort(lib, Cols(n)) && |FileOf(lib, Cols(n))| < TWO_64
    ensures ReadBack(lib, n).Some?
    ensures var rows, back := RowsOf(n), RowsOf(ReadBack(lib, n).value);
            |back| == |rows| <==> rows == [] || exists r :: 0 <= r < |rows| && rows[r].children != []
  {
    WrittenIff(lib, Cols(n));
    StoredComesBack(lib, Cols(n));
    TableRows(StoredAll(HDF5_CODING, lib, Cols(n)));
    HeadsIff(RowsOf(n));
  }

  // Records without fields are all lost.
  lemma EmptyRecordsAreLost(lib: Library, n: Node)
    requires NoNil(RowsOf(n)) && forall r | 0 <= r < |RowsOf(n)| :: RowsOf(n)[r].children == []
    ensures ReadBack(lib, n).Some? && RowsOf(ReadBack(lib, n).value) == []
    ensures |RowsOf(ReadBack(lib, n).value)| == |RowsOf(n)| <==> RowsOf(n) == []
  {
    HeadsIff(RowsOf(n));
    assert Cols(n) == [];
    WrittenIff(lib, []);
    ColumnsRoundTrip(lib, []);
    TableRows([]);
  }

  lemma {:induction false} HeadsIff(rows: seq<Node>)
    requires NoNil(rows)
    ensures HeadsOf(rows, CodeOf) != [] <==> exists r :: 0 <= r < |rows| && rows[r].children != []
  {
    if rows != [] {
      var front, last := rows[..|rows| - 1], rows[|rows| - 1];
      HeadsIff(front);
      ChildrenGiveHeads(HeadsOf(front, CodeOf), last.children);
      if r :| 0 <= r < |front| && front[r].children != [] {
        assert rows[r].children != [];
      }
    }
  }

  lemma {:induction false} ChildrenGiveHeads(heads: seq<Head>, children: seq<Node>)
    requires NilNode !in children
    ensures |WithChildren(heads, children, CodeOf)| >= |heads|
    ensures children == [] ==> WithChildren(heads, children, CodeOf) == heads
    ensures children != [] ==> WithChildren(heads, children, CodeOf) != []
  {
    if children != [] {
      ChildrenGiveHeads(heads, children[..|children| - 1]);
    }
  }
}
