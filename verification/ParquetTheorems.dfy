/** Records written as a Parquet subset file come back, by way of the footer at its end. */
module ParquetTheorems {
  import opened ByteStrings
  import opened Columns
  import opened ParquetFormat
  import opened PlainValues
  import opened Records
  import opened Segments
  import opened Uir

  // ---------- the footer's entries ----------

  function MetasOf(cols: seq<Column>, parts: seq<Bytes>, offset: nat): (metas: seq<Meta>)
    requires |parts| == |cols|
    ensures |metas| == |cols|
  {
    if cols == [] then []
    else [Meta(cols[0].name, cols[0].code, offset, |parts[0]|)] + MetasOf(cols[1..], parts[1..], offset + |parts[0]|)
  }

  // Entry number i has the place and the length of chunk number i.
  lemma {:induction false} EntryHasPlace(cols: seq<Column>, parts: seq<Bytes>, offset: nat, i: nat)
    requires |parts| == |cols| && i < |cols|
    ensures MetasOf(cols, parts, offset)[i] == Meta(cols[i].name, cols[i].code, OffsetOf(parts, i, offset), |parts[i]|)
    decreases i
  {
    if i > 0 {
      EntryHasPlace(cols[1..], parts[1..], offset + |parts[0]|, i - 1);
    }
  }

  ghost predicate Named(cols: seq<Column>) {
    forall c | c in cols :: |c.name| < 0x1_0000
  }

  lemma MetaReads(c: Column, offset: uint64, length: uint64, rest: Bytes)
    requires |c.name| < 0x1_0000
    ensures ReadMeta(Entry(c, offset, length) + rest) == GotMeta(Meta(c.name, c.code, offset, length), rest)
  {
    var l, o, n, v := LittleEndian(2, |c.name|), LittleEndian(8, offset), LittleEndian(8, length), LittleEndian(4, |c.values|);
    Uint16Reads(|c.name|);
    Uint64Reads(offset);
    Uint64Reads(length);
    var body := c.name + [c.code] + o + n + v + rest;
    var s := Entry(c, offset, length) + rest;
    assert s == l + body;
    assert s[..2] == l && s[2..] == body;
    BodySlices(c.name, c.code, o, n, v, rest);
  }

  lemma BodySlices(name: Bytes, code: byte, o: Bytes, n: Bytes, v: Bytes, rest: Bytes)
    requires |o| == 8 && |n| == 8 && |v| == 4
    ensures var k, body := |name|, name + [code] + o + n + v + rest;
            && |body| >= k + 21 && body[..k] == name && body[k] == code && body[k + 1..k + 9] == o
            && body[k + 9..k + 17] == n && body[k + 21..] == rest
  {}

  lemma {:induction false} MetasRead(cols: seq<Column>, parts: seq<Bytes>, offset: nat)
    requires |parts| == |cols| && Named(cols) && offset + |Concat(parts)| < TWO_64
    ensures ReadMetas(|cols|, Entries(cols, parts, offset)) == Listing(MetasOf(cols, parts, offset), [])
    decreases cols
  {
    if cols != [] {
      var more, parts', next := cols[1..], parts[1..], offset + |parts[0]|;
      assert cols[0] in cols;
      MetasRead(more, parts', next);
      FirstMetaReads(cols[0], offset, |parts[0]|, |more|, Entries(more, parts', next), MetasOf(more, parts', next),
                     Entries(cols, parts, offset));
    }
  }

  lemma FirstMetaReads(c: Column, offset: uint64, length: uint64, count: nat, entries: Bytes, metas: seq<Meta>, all: Bytes)
    requires |c.name| < 0x1_0000 && ReadMetas(count, entries) == Listing(metas, [])
    requires all == Entry(c, offset, length) + entries
    ensures ReadMetas(count + 1, all) == Listing([Meta(c.name, c.code, offset, length)] + metas, [])
  {
    MetaReads(c, offset, length, entries);
  }

  // ---------- the chunks ----------

  // A chunk from which its column is read back wherever it lies.
  ghost predicate Decodes(part: Bytes, c: Column) {
    exists payload ::
      && part == Page(|c.values|, payload) && 10 + |payload| < TWO_32 && |c.values| < TWO_32
      && ReadValues(KindOf(c.code), |c.values|, payload) == Listing(c.values, [])
  }

  ghost predicate AllDecode(parts: seq<Bytes>, cols: seq<Column>) {
    |parts| == |cols| && forall i | 0 <= i < |cols| :: Decodes(parts[i], cols[i])
  }

  lemma PageSlices(count: nat, payload: Bytes, rest: Bytes)
    requires count < TWO_32 && |payload| < TWO_32
    ensures var s := Page(count, payload) + rest;
            && |s| >= 10 + |payload| && s[0] == 0 && s[9] == 0 && s[10..10 + |payload|] == payload
            && FromLittleEndian(s[1..5]) == |payload| && FromLittleEndian(s[5..9]) == count
  {
    Uint32Reads(|payload|);
    Uint32Reads(count);
    FiveParts(LittleEndian(4, |payload|), LittleEndian(4, count), payload, rest);
  }

  lemma FiveParts(size: Bytes, count: Bytes, payload: Bytes, rest: Bytes)
    requires |size| == 4 && |count| == 4
    ensures var s := [0] + size + count + [0] + payload + rest;
            && s[0] == 0 && s[1..5] == size && s[5..9] == count && s[9] == 0 && s[10..10 + |payload|] == payload
  {}

  lemma ColumnReads(data: Bytes, at: nat, c: Column, part: Bytes)
    requires PartAt(data, at, part) && Decodes(part, c)
    ensures ReadColumn(data, Meta(c.name, c.code, at, |part|)) == Some(c)
  {
    FromHere(data, at, part);
    PageReads(c, part, data[at + |part|..], data[at..]);
  }

  lemma PageReads(c: Column, part: Bytes, rest: Bytes, chunk: Bytes)
    requires Decodes(part, c) && chunk == part + rest
    ensures |part| >= 10 && ReadPage(c.name, c.code, chunk) == Some(c)
  {
    var payload :| part == Page(|c.values|, payload) && 10 + |payload| < TWO_32 && |c.values| < TWO_32
                   && ReadValues(KindOf(c.code), |c.values|, payload) == Listing(c.values, []);
    PageSlices(|c.values|, payload, rest);
  }

  ghost predicate AllRead(data: Bytes, metas: seq<Meta>, cols: seq<Column>) {
    |metas| == |cols| && forall i | 0 <= i < |cols| :: ReadColumn(data, metas[i]) == Some(cols[i])
  }

  lemma {:induction false} AllReadGives(data: Bytes, metas: seq<Meta>, cols: seq<Column>)
    requires AllRead(data, metas, cols)
    ensures ReadColumns(data, metas) == Some(cols)
  {
    if cols != [] {
      AllReadGives(data, metas[1..], cols[1..]);
      assert cols == [cols[0]] + cols[1..];
    }
  }

  // Every entry leads to its chunk.
  lemma ColumnsRead(data: Bytes, front: Bytes, cols: seq<Column>, parts: seq<Bytes>, metas: seq<Meta>)
    requires AllDecode(parts, cols) && metas == MetasOf(cols, parts, |front|)
    requires |front + Concat(parts)| <= |data| && data[..|front + Concat(parts)|] == front + Concat(parts)
    ensures ReadColumns(data, metas) == Some(cols)
  {
    forall i | 0 <= i < |cols| ensures ReadColumn(data, metas[i]) == Some(cols[i]) {
      EntryHasPlace(cols, parts, |front|, i);
      PartIsThere(parts, front, i);
      PartStays(front + Concat(parts), data, OffsetOf(parts, i, |front|), parts[i]);
      ColumnReads(data, OffsetOf(parts, i, |front|), cols[i], parts[i]);
    }
    AllReadGives(data, metas, cols);
  }

  lemma PartStays(front: Bytes, data: Bytes, at: nat, part: Bytes)
    requires |front| <= |data| && data[..|front|] == front && PartAt(front, at, part)
    ensures PartAt(data, at, part)
  {
    assert data[at..at + |part|] == front[at..at + |part|];
  }

  // ---------- the file ----------

  // Columns and chunks that the widths of the format can describe.
  ghost predicate Writable(lib: Library, rows: nat, cols: seq<Column>) {
    Sized(lib, rows, cols) && Named(cols) && AllFitting(PARQUET_CODING, cols)
  }

  ghost predicate Sized(lib: Library, rows: nat, cols: seq<Column>) {
    && rows < TWO_32 && |cols| < TWO_32
    && (forall i | 0 <= i < |cols| :: |cols[i].values| < TWO_32 && |Chunk(lib, cols[i])| < TWO_32)
    && |Footer(rows, cols, ChunksOf(lib, cols))| < TWO_32 && |FileOf(lib, rows, cols)| < TWO_64
  }

  lemma ChunkDecodes(lib: Library, c: Column)
    requires forall k | 0 <= k < |c.values| :: Fitting(KindOf(c.code), c.values[k])
    requires |c.values| < TWO_32 && |Chunk(lib, c)| < TWO_32
    ensures Decodes(Chunk(lib, c), c)
  {
    var kind := KindOf(c.code);
    AdaptKeeps(lib);
    FittingIsKept(PARQUET_CODING, lib, kind, c.values);
    var payload := EncodeAll(kind, c.values);
    ValuesRead(kind, c.values, []);
    assert payload + [] == payload;
    assert Chunk(lib, c) == Page(|c.values|, payload);
  }

  lemma AdaptKeeps(lib: Library)
    ensures KeepsFitting(PARQUET_CODING, lib)
  {}

  lemma ChunksDecode(lib: Library, rows: nat, cols: seq<Column>)
    requires Writable(lib, rows, cols)
    ensures AllDecode(ChunksOf(lib, cols), cols)
  {
    forall i | 0 <= i < |cols| ensures Decodes(ChunksOf(lib, cols)[i], cols[i]) {
      ChunkDecodes(lib, cols[i]);
    }
  }

  // The footer is found from the end, whatever lies in front of it.
  lemma FooterIsFound(front: Bytes, footer: Bytes, data: Bytes)
    requires |front| >= 4 && front[..4] == MAGIC && |footer| < TWO_32
    requires data == front + (footer + (LittleEndian(4, |footer|) + MAGIC))
    ensures FooterOf(data) == Some(footer)
  {
    LengthReads(|footer|);
    FromTheEnd(front, footer, LittleEndian(4, |footer|), MAGIC, data);
    FooterLiesThere(data, footer);
  }

  lemma LengthReads(n: nat)
    requires n < TWO_32
    ensures FromLittleEndian(LittleEndian(4, n)) == n
  {
    Uint32Reads(n);
  }

  lemma FooterLiesThere(data: Bytes, footer: Bytes)
    requires |data| >= 12 + |footer| && data[..4] == MAGIC && data[|data| - 4..] == MAGIC
    requires FromLittleEndian(data[|data| - 8..|data| - 4]) == |footer|
    requires data[|data| - 8 - |footer|..|data| - 8] == footer
    ensures FooterOf(data) == Some(footer)
  {}

  lemma FromTheEnd(a: Bytes, b: Bytes, c: Bytes, d: Bytes, data: Bytes)
    requires data == a + (b + (c + d)) && |a| >= 4 && |c| == 4 && |d| == 4
    ensures var n := |data|;
            n >= 12 + |b| && data[..4] == a[..4] && data[n - 4..] == d && data[n - 8..n - 4] == c && data[n - 8 - |b|..n - 8] == b
  {}

  lemma FooterSlices(rows: nat, cols: seq<Column>, parts: seq<Bytes>)
    requires |parts| == |cols| && rows < TWO_32 && |cols| < TWO_32
    ensures var f := Footer(rows, cols, parts);
            && |f| >= 12 && FromLittleEndian(f[..4]) == 1 && FromLittleEndian(f[4..8]) == rows
            && FromLittleEndian(f[8..12]) == |cols| && f[12..] == Entries(cols, parts, |MAGIC|)
  {
    var f := Footer(rows, cols, parts);
    Uint32Reads(1);
    Uint32Reads(rows);
    Uint32Reads(|cols|);
    assert f[..4] == LittleEndian(4, 1) && f[4..8] == LittleEndian(4, rows) && f[8..12] == LittleEndian(4, |cols|);
  }

  // Main result: the reader finds the footer from the end of the file and through it every column, with
  // or without rows.
  lemma TableRoundTrip(lib: Library, rows: nat, cols: seq<Column>)
    requires Writable(lib, rows, cols)
    ensures ReadFile(FileOf(lib, rows, cols)) == Table(rows, cols)
  {
    ChunksDecode(lib, rows, cols);
    FileReads(FileOf(lib, rows, cols), rows, cols, ChunksOf(lib, cols));
  }

  lemma FileReads(data: Bytes, rows: nat, cols: seq<Column>, parts: seq<Bytes>)
    requires AllDecode(parts, cols) && rows < TWO_32 && |cols| < TWO_32 && Named(cols)
    requires |Footer(rows, cols, parts)| < TWO_32 && data == FileWith(rows, cols, parts) && |data| < TWO_64
    ensures ReadFile(data) == Table(rows, cols)
  {
    FooterLeads(data, rows, cols, parts);
    ColumnsRead(data, MAGIC, cols, parts, MetasOf(cols, parts, |MAGIC|));
  }

  // The reader goes by the entries of the footer.
  lemma FooterLeads(data: Bytes, rows: nat, cols: seq<Column>, parts: seq<Bytes>)
    requires |parts| == |cols| && rows < TWO_32 && |cols| < TWO_32 && Named(cols)
    requires |Footer(rows, cols, parts)| < TWO_32 && data == FileWith(rows, cols, parts) && |data| < TWO_64
    ensures var read := ReadColumns(data, MetasOf(cols, parts, |MAGIC|));
            ReadFile(data) == if read.None? then NoTable else Table(rows, read.value)
  {
    FooterIsFound(MAGIC + Concat(parts), Footer(rows, cols, parts), data);
    FooterSlices(rows, cols, parts);
    MetasRead(cols, parts, |MAGIC|);
  }

  // The chunks tile the bytes between the leading magic number and the footer.
  lemma ChunksTile(lib: Library, rows: nat, cols: seq<Column>, i: nat)
    requires i < |cols|
    ensures var parts, footer := ChunksOf(lib, cols), Footer(rows, cols, ChunksOf(lib, cols));
            && OffsetOf(parts, 0, |MAGIC|) == |MAGIC|
            && OffsetOf(parts, i + 1, |MAGIC|) == OffsetOf(parts, i, |MAGIC|) + |Chunk(lib, cols[i])|
            && OffsetOf(parts, |parts|, |MAGIC|) + |footer| + 8 == |FileOf(lib, rows, cols)|
            && PartAt(FileOf(lib, rows, cols), OffsetOf(parts, i, |MAGIC|), Chunk(lib, cols[i]))
  {
    var parts := ChunksOf(lib, cols);
    PartsTile(parts, MAGIC, i);
    var front := MAGIC + Concat(parts);
    PartStays(front, FileOf(lib, rows, cols), OffsetOf(parts, i, |MAGIC|), parts[i]);
  }

  // The footer of the file, as it is found from the end, describes every chunk: its name, its type, its length
  // and where it lies.
  lemma FooterDescribes(lib: Library, rows: nat, cols: seq<Column>, i: nat)
    requires Sized(lib, rows, cols) && Named(cols) && i < |cols|
    ensures var data := FileOf(lib, rows, cols); var footer := FooterOf(data);
            && footer.Some? && |footer.value| >= 12 && FromLittleEndian(footer.value[8..12]) == |cols|
            && var metas := ReadMetas(|cols|, footer.value[12..]);
               && metas.Listing? && i < |metas.items| && metas.rest == []
               && metas.items[i].name == cols[i].name && metas.items[i].code == cols[i].code
               && metas.items[i].length == |Chunk(lib, cols[i])| && PartAt(data, metas.items[i].offset, Chunk(lib, cols[i]))
  {
    var parts := ChunksOf(lib, cols);
    FooterIsFound(MAGIC + Concat(parts), Footer(rows, cols, parts), FileOf(lib, rows, cols));
    FooterSlices(rows, cols, parts);
    MetasRead(cols, parts, |MAGIC|);
    EntryHasPlace(cols, parts, |MAGIC|, i);
    ChunksTile(lib, rows, cols, i);
  }

  // ---------- what the reader can return ----------

  lemma {:induction false} MetasAreNamed(count: nat, s: Bytes)
    requires ReadMetas(count, s).Listing?
    ensures forall i | 0 <= i < count :: |ReadMetas(count, s).items[i].name| < 0x1_0000
    decreases count
  {
    if count > 0 {
      var m := ReadMeta(s);
      FromLittleEndianBound(s[..2]);
      Pow256Widths();
      MetasAreNamed(count - 1, m.rest);
      assert ReadMetas(count, s).items == [m.meta] + ReadMetas(count - 1, m.rest).items;
    }
  }

  // A column that is read has the name and the type its entry says, and only values of that type.
  ghost predicate Describes(m: Meta, c: Column) {
    c.name == m.name && c.code == m.code && forall k | 0 <= k < |c.values| :: Fitting(KindOf(c.code), c.values[k])
  }

  lemma ColumnIsDescribed(data: Bytes, m: Meta)
    requires ReadColumn(data, m).Some?
    ensures Describes(m, ReadColumn(data, m).value)
  {
    var chunk := data[m.offset..];
    var size, count := FromLittleEndian(chunk[1..5]), FromLittleEndian(chunk[5..9]);
    AllReadFit(KindOf(m.code), count, chunk[10..10 + size]);
  }

  lemma {:induction false} ColumnsAreDescribed(data: Bytes, metas: seq<Meta>)
    requires ReadColumns(data, metas).Some?
    ensures forall i | 0 <= i < |metas| :: Describes(metas[i], ReadColumns(data, metas).value[i])
  {
    if metas != [] {
      ColumnIsDescribed(data, metas[0]);
      ColumnsAreDescribed(data, metas[1..]);
      var cols, more := ReadColumns(data, metas).value, ReadColumns(data, metas[1..]).value;
      forall i | 0 <= i < |metas| ensures Describes(metas[i], cols[i]) {
        assert i > 0 ==> cols[i] == more[i - 1] && metas[i] == metas[1..][i - 1];
      }
    }
  }

  // Whatever file is read, its names are short and its columns hold only values of their types.
  lemma ReadIsFitting(data: Bytes)
    requires ReadFile(data).Table?
    ensures Named(ReadFile(data).columns) && AllFitting(PARQUET_CODING, ReadFile(data).columns)
  {
    var footer := FooterOf(data).value;
    var count := FromLittleEndian(footer[8..12]);
    var metas := ReadMetas(count, footer[12..]).items;
    MetasAreNamed(count, footer[12..]);
    ColumnsAreDescribed(data, metas);
    var cols := ReadFile(data).columns;
    forall c | c in cols ensures |c.name| < 0x1_0000 {
      var i :| 0 <= i < |cols| && cols[i] == c;
      assert Describes(metas[i], cols[i]);
    }
    forall i, k | 0 <= i < |cols| && 0 <= k < |cols[i].values| ensures Fitting(KindOf(cols[i].code), cols[i].values[k]) {
      assert Describes(metas[i], cols[i]);
    }
  }

  // ---------- values that do not have the type of their column ----------

  // A value comes back exactly if it has the dynamic type of the kind it is written as.
  lemma ValueComesBackIff(lib: Library, kind: Kind, v: Value, rest: Bytes)
    ensures ReadValue(kind, Encode(kind, Adapted(lib, kind, v)) + rest) == GotValue(v, rest) <==> Fitting(kind, v)
  {
    AdaptKeeps(lib);
    ValueSurvivesIff(PARQUET_CODING, lib, kind, v, rest);
  }

  ghost predicate AllShort(lib: Library, cols: seq<Column>) {
    forall i | 0 <= i < |cols| :: ShortTexts(PARQUET_CODING, lib, cols[i])
  }

  lemma {:induction false} SameEntries(cols: seq<Column>, cols': seq<Column>, parts: seq<Bytes>, offset: nat)
    requires Like(cols, cols') && |cols| == |parts|
    ensures Entries(cols, parts, offset) == Entries(cols', parts, offset)
    decreases cols
  {
    if cols != [] {
      var entry := Entry(cols[0], offset, |parts[0]|);
      SameEntry(cols[0], cols'[0], offset, |parts[0]|);
      SameEntries(cols[1..], cols'[1..], parts[1..], offset + |parts[0]|);
      FirstEntry(cols, parts, offset, entry);
      FirstEntry(cols', parts, offset, entry);
    }
  }

  lemma FirstEntry(cols: seq<Column>, parts: seq<Bytes>, offset: nat, entry: Bytes)
    requires cols != [] && |parts| == |cols| && entry == Entry(cols[0], offset, |parts[0]|)
    ensures Entries(cols, parts, offset) == entry + Entries(cols[1..], parts[1..], offset + |parts[0]|)
  {}

  lemma SameEntry(c: Column, c': Column, offset: nat, length: nat)
    requires c.name == c'.name && c.code == c'.code && |c.values| == |c'.values|
    ensures Entry(c, offset, length) == Entry(c', offset, length)
  {}

  lemma StoredChunks(lib: Library, cols: seq<Column>, stored: seq<Column>)
    requires AllShort(lib, cols) && stored == StoredAll(PARQUET_CODING, lib, cols)
    ensures ChunksOf(lib, stored) == ChunksOf(lib, cols) && AllFitting(PARQUET_CODING, stored)
  {
    AdaptKeeps(lib);
    forall i | 0 <= i < |cols|
      ensures ChunksOf(lib, stored)[i] == ChunksOf(lib, cols)[i]
      ensures forall k | 0 <= k < |stored[i].values| :: Fitting(KindOf(stored[i].code), stored[i].values[k])
    {
      StoredFits(PARQUET_CODING, lib, cols[i]);
    }
  }

  // Main result: whatever the values are, every column comes back with what is left of them when they are
  // written as its type.
  lemma StoredComesBack(lib: Library, rows: nat, cols: seq<Column>)
    requires Sized(lib, rows, cols) && Named(cols) && AllShort(lib, cols)
    ensures ReadFile(FileOf(lib, rows, cols)) == Table(rows, StoredAll(PARQUET_CODING, lib, cols))
  {
    var stored := StoredAll(PARQUET_CODING, lib, cols);
    StoredChunks(lib, cols, stored);
    SameEntries(cols, stored, ChunksOf(lib, cols), |MAGIC|);
    StoredIsSized(lib, rows, cols, stored);
    TableRoundTrip(lib, rows, stored);
  }

  lemma StoredIsSized(lib: Library, rows: nat, cols: seq<Column>, stored: seq<Column>)
    requires Sized(lib, rows, cols) && Like(cols, stored) && ChunksOf(lib, stored) == ChunksOf(lib, cols)
    requires Footer(rows, stored, ChunksOf(lib, cols)) == Footer(rows, cols, ChunksOf(lib, cols))
    ensures Sized(lib, rows, stored)
  {
    forall i | 0 <= i < |stored| ensures |Chunk(lib, stored[i])| < TWO_32 {
      assert ChunksOf(lib, stored)[i] == ChunksOf(lib, cols)[i];
    }
  }

  // Bytes come back as a string of the same bytes.
  lemma BytesBecomeText(lib: Library, rows: nat, cols: seq<Column>, i: nat, k: nat)
    requires Sized(lib, rows, cols) && Named(cols) && AllShort(lib, cols)
    requires i < |cols| && k < |cols[i].values| && KindOf(cols[i].code) == KText && cols[i].values[k].Blob?
    ensures var back := ReadFile(FileOf(lib, rows, cols));
            back.Table? && CellIs(back.columns, i, k, Str(cols[i].values[k].s))
  {
    StoredComesBack(lib, rows, cols);
    BlobIsStored(lib, cols[i], k);
  }

  ghost predicate CellIs(cols: seq<Column>, i: nat, k: nat, v: Value) {
    i < |cols| && k < |cols[i].values| && cols[i].values[k] == v
  }

  lemma BlobIsStored(lib: Library, c: Column, k: nat)
    requires k < |c.values| && KindOf(c.code) == KText && c.values[k].Blob?
    ensures Stored(PARQUET_CODING, lib, c).values[k] == Str(c.values[k].s)
  {
    assert PARQUET_CODING.adapt(lib, KText, c.values[k]) == Adapted(lib, KText, c.values[k]) == Str(c.values[k].s);
    assert AdaptedAll(PARQUET_CODING, lib, KText, c.values)[k] == Str(c.values[k].s);
  }

  // ---------- records ----------

  // What is read from what is written.
  function ReadBack(lib: Library, n: Node): Option<Node> {
    var data := Encoded(lib, n);
    if data.None? then None else Parsed(data.value)
  }

  function Cols(n: Node): seq<Column> {
    ColumnsOf(RowsOf(n), CodeOf)
  }

  // Main result: aligned records come back from a file - as many, each with every key, type and value - if and
  // only if their values have the types that the format supports and their keys are shorter than 65536 bytes.
  lemma RecordsRoundTripIff(lib: Library, n: Node)
    requires Aligned(RowsOf(n)) && Sized(lib, |RowsOf(n)|, Cols(n))
    ensures Survive(ReadBack(lib, n), RowsOf(n)) <==> AllSupported(PARQUET_CODING, RowsOf(n)) && Named(Cols(n))
  {
    var rows, cols := RowsOf(n), Cols(n);
    if AllSupported(PARQUET_CODING, rows) && Named(cols) {
      UniformFits(PARQUET_CODING, rows);
      TableRoundTrip(lib, |rows|, cols);
      TreeHasRecords(rows, cols);
    }
    if Survive(ReadBack(lib, n), rows) {
      var read := ReadFile(FileOf(lib, |rows|, cols));
      ReadIsFitting(FileOf(lib, |rows|, cols));
      SurvivorsAreNamed(rows, cols, read.rows, read.columns);
      SurvivorsAreSupported(lib, rows, cols);
    }
  }

  lemma SurvivorsAreNamed(rows: seq<Node>, cols: seq<Column>, count: nat, read: seq<Column>)
    requires Aligned(rows) && cols == ColumnsOf(rows, CodeOf) && Named(read) && Survive(Some(TreeOf(count, read)), rows)
    ensures Named(cols)
  {
    TreeRows(count, read);
    AlignedColumns(PARQUET_CODING, rows);
    var back := RowsOf(TreeOf(count, read))[0];
    assert SameRecord(back, rows[0]);
    forall j | 0 <= j < |cols| ensures |cols[j].name| < 0x1_0000 {
      NameSurvives(read, TypeOfCode, back, rows[0], j);
    }
  }

  // What is read from a file has the names, types and lengths of the columns written, whatever the values.
  lemma ReadIsLike(lib: Library, rows: nat, cols: seq<Column>)
    requires Sized(lib, rows, cols) && Named(cols) && ReadFile(FileOf(lib, rows, cols)).Table?
    ensures Like(ReadFile(FileOf(lib, rows, cols)).columns, cols)
  {
    var data, parts := FileOf(lib, rows, cols), ChunksOf(lib, cols);
    var metas := MetasOf(cols, parts, |MAGIC|);
    FooterLeads(data, rows, cols, parts);
    ColumnsAreDescribed(data, metas);
    var read := ReadColumns(data, metas).value;
    forall j | 0 <= j < |cols| ensures read[j].name == cols[j].name && read[j].code == cols[j].code && |read[j].values| == |cols[j].values| {
      EntryHasPlace(cols, parts, |MAGIC|, j);
      assert Describes(metas[j], read[j]);
      EachIsRead(data, metas, j);
      ChunksTile(lib, rows, cols, j);
      CountIsRead(lib, data, metas[j], cols[j]);
    }
  }

  lemma {:induction false} EachIsRead(data: Bytes, metas: seq<Meta>, j: nat)
    requires ReadColumns(data, metas).Some? && j < |metas|
    ensures ReadColumn(data, metas[j]) == Some(ReadColumns(data, metas).value[j])
    decreases metas
  {
    if j > 0 {
      EachIsRead(data, metas[1..], j - 1);
    }
  }

  lemma CountIsRead(lib: Library, data: Bytes, m: Meta, c: Column)
    requires PartAt(data, m.offset, Chunk(lib, c)) && |c.values| < TWO_32 && |Chunk(lib, c)| < TWO_32
    requires ReadColumn(data, m).Some?
    ensures |ReadColumn(data, m).value.values| == |c.values|
  {
    var kind := KindOf(c.code);
    FromHere(data, m.offset, Chunk(lib, c));
    PageSlices(|c.values|, EncodeAll(kind, AdaptedAll(PARQUET_CODING, lib, kind, c.values)), data[m.offset + |Chunk(lib, c)|..]);
  }

  lemma SurvivorsAreSupported(lib: Library, rows: seq<Node>, cols: seq<Column>)
    requires Aligned(rows) && cols == ColumnsOf(rows, CodeOf) && Sized(lib, |rows|, cols) && Named(cols)
    requires var read := ReadFile(FileOf(lib, |rows|, cols));
             read.Table? && Survive(Some(TreeOf(read.rows, read.columns)), rows)
    ensures AllSupported(PARQUET_CODING, rows)
  {
    var read := ReadFile(FileOf(lib, |rows|, cols));
    ReadIsFitting(FileOf(lib, |rows|, cols));
    ReadIsLike(lib, |rows|, cols);
    TreeRows(read.rows, read.columns);
    forall r, i | 0 <= r < |rows| && 0 <= i < |rows[r].children| ensures Supported(PARQUET_CODING, rows[r].children[i]) {
      SurvivorIsSupported(PARQUET_CODING, rows, read.columns, r, RowsOf(TreeOf(read.rows, read.columns))[r]);
    }
  }

  lemma TreeHasRecords(rows: seq<Node>, cols: seq<Column>)
    requires Uniform(PARQUET_CODING, rows) && cols == ColumnsOf(rows, CodeOf)
    ensures Survive(Some(TreeOf(|rows|, cols)), rows)
  {
    TreeRows(|rows|, cols);
    var back := RowsOf(TreeOf(|rows|, cols));
    forall r | 0 <= r < |rows| ensures SameRecord(back[r], rows[r]) {
      RecordComesBack(PARQUET_CODING, rows, cols, r, back[r]);
    }
  }

  lemma TreeRows(rows: nat, cols: seq<Column>)
    ensures var back := RowsOf(TreeOf(rows, cols));
            |back| == rows && forall r | 0 <= r < rows :: back[r].Node? && back[r].children == FieldsAt(cols, r, TypeOfCode)
  {
    FieldsAreScalars(cols, 0, TypeOfCode);
    SingleRecord([], FieldsAt(cols, 0, TypeOfCode));
  }

  // The number of records survives whatever they hold, also if they have no fields.
  lemma CountSurvives(lib: Library, n: Node)
    requires NoNil(RowsOf(n)) && Sized(lib, |RowsOf(n)|, Cols(n)) && Named(Cols(n)) && AllShort(lib, Cols(n))
    ensures ReadBack(lib, n).Some? && |RowsOf(ReadBack(lib, n).value)| == |RowsOf(n)|
  {
    StoredComesBack(lib, |RowsOf(n)|, Cols(n));
    TreeRows(|RowsOf(n)|, StoredAll(PARQUET_CODING, lib, Cols(n)));
  }

  // A document without records comes back without records.
  lemma NoRecordsRoundTrip(lib: Library, n: Node)
    requires RowsOf(n) == []
    ensures Encoded(lib, n).Some? && Parsed(Encoded(lib, n).value) == Some(TreeOf(0, []))
    ensures RowsOf(TreeOf(0, [])) == []
  {
    assert ColumnsOf([], CodeOf) == [];
    TableRoundTrip(lib, 0, []);
    TreeRows(0, []);
  }
}
