/** Records written as an HDF5 subset file come back, through the offsets in its directory. */
module Hdf5Theorems {
  import opened ByteStrings
  import opened Columns
  import opened Hdf5Format
  import opened PlainValues
  import opened Records
  import opened Segments
  import opened Uir

  // ---------- the directory ----------

  function MetaOf(c: Column, offset: nat): Meta {
    Meta(c.name, c.code, |c.values|, offset)
  }

  // Columns that the widths of the directory can describe.
  ghost predicate Describable(cols: seq<Column>) {
    |cols| < TWO_32 && forall c | c in cols :: |c.name| < 0x1_0000 && |c.values| < TWO_64
  }

  function MetasOf(cols: seq<Column>, parts: seq<Bytes>, offset: nat): (metas: seq<Meta>)
    requires |parts| == |cols|
    ensures |metas| == |cols|
  {
    if cols == [] then [] else [MetaOf(cols[0], offset)] + MetasOf(cols[1..], parts[1..], offset + |parts[0]|)
  }

  lemma MetaReads(c: Column, offset: uint64, rest: Bytes)
    requires |c.name| < 0x1_0000 && |c.values| < TWO_64
    ensures ReadMeta((EntryFront(c) + LittleEndian(8, offset)) + rest) == GotMeta(MetaOf(c, offset), rest)
  {
    var l, n, o := LittleEndian(2, |c.name|), LittleEndian(8, |c.values|), LittleEndian(8, offset);
    Uint16Reads(|c.name|);
    Uint64Reads(|c.values|);
    Uint64Reads(offset);
    BehindLength(l, c.name, [c.code], n, o, rest);
    BodySlices(c.name, c.code, n, o, rest);
  }

  lemma BehindLength(l: Bytes, name: Bytes, code: Bytes, n: Bytes, o: Bytes, rest: Bytes)
    ensures var s := ((l + name + code + n) + o) + rest;
            s[..|l|] == l && s[|l|..] == name + code + n + o + rest
  {}

  lemma BodySlices(name: Bytes, code: byte, n: Bytes, o: Bytes, rest: Bytes)
    requires |n| == 8 && |o| == 8
    ensures var k, body := |name|, name + [code] + n + o + rest;
            && |body| >= k + 17 && body[..k] == name && body[k] == code && body[k + 1..k + 9] == n
            && body[k + 9..k + 17] == o && body[k + 17..] == rest
  {}

  lemma {:induction false} MetasRead(cols: seq<Column>, parts: seq<Bytes>, offset: nat, rest: Bytes)
    requires |parts| == |cols| && Describable(cols) && offset + |Concat(parts)| < TWO_64
    ensures ReadMetas(|cols|, Entries(cols, parts, offset) + rest) == Listing(MetasOf(cols, parts, offset), rest)
    decreases cols
  {
    if cols == [] {
      assert [] + rest == rest;
    } else {
      var more, parts', next := cols[1..], parts[1..], offset + |parts[0]|;
      DescribableMore(cols, more);
      MetasRead(more, parts', next, rest);
      FirstMetaReads(cols[0], offset, |more|, Entries(more, parts', next), rest, MetasOf(more, parts', next),
                     Entries(cols, parts, offset));
    }
  }

  lemma DescribableMore(cols: seq<Column>, more: seq<Column>)
    requires Describable(cols) && cols != [] && more == cols[1..]
    ensures Describable(more) && |cols[0].name| < 0x1_0000 && |cols[0].values| < TWO_64
  {}

  lemma FirstMetaReads(c: Column, offset: uint64, count: nat, entries: Bytes, rest: Bytes, metas: seq<Meta>, all: Bytes)
    requires |c.name| < 0x1_0000 && |c.values| < TWO_64
    requires ReadMetas(count, entries + rest) == Listing(metas, rest)
    requires all == EntryFront(c) + LittleEndian(8, offset) + entries
    ensures ReadMetas(count + 1, all + rest) == Listing([MetaOf(c, offset)] + metas, rest)
  {
    MetaReads(c, offset, entries + rest);
    Rejoin(EntryFront(c) + LittleEndian(8, offset), entries, rest);
  }

  lemma {:induction false} EntriesLength(cols: seq<Column>, parts: seq<Bytes>, offset: nat)
    requires |parts| == |cols|
    ensures |Entries(cols, parts, offset)| == EntriesSize(cols)
    decreases cols
  {
    if cols != [] {
      EntriesLength(cols[1..], parts[1..], offset + |parts[0]|);
    }
  }

  // ---------- the offsets lead to the payloads ----------

  // A payload from which the values of its column are read back.
  ghost predicate Decodes(part: Bytes, c: Column) {
    forall behind :: ReadValues(KindOf(c.code), |c.values|, part + behind) == Listing(c.values, behind)
  }

  ghost predicate AllDecode(parts: seq<Bytes>, cols: seq<Column>) {
    |parts| == |cols| && forall i | 0 <= i < |cols| :: Decodes(parts[i], cols[i])
  }

  // The directory entry of column i carries the offset at which its payload starts.
  lemma {:induction false} EntryHasOffset(cols: seq<Column>, parts: seq<Bytes>, offset: nat, i: nat)
    requires |parts| == |cols| && i < |cols|
    ensures MetasOf(cols, parts, offset)[i] == MetaOf(cols[i], OffsetOf(parts, i, offset))
    decreases i
  {
    if i > 0 {
      EntryHasOffset(cols[1..], parts[1..], offset + |parts[0]|, i - 1);
    }
  }

  lemma ColumnReads(data: Bytes, at: nat, c: Column, part: Bytes)
    requires PartAt(data, at, part) && Decodes(part, c)
    ensures ReadColumn(data, MetaOf(c, at)) == Some(c)
  {
    FromHere(data, at, part);
  }

  ghost predicate AllRead(data: Bytes, metas: seq<Meta>, cols: seq<Column>) {
    |metas| == |cols| && forall i | 0 <= i < |cols| :: ReadColumn(data, metas[i]) == Some(cols[i])
  }

  lemma {:induction false} AllReadGives(data: Bytes, metas: seq<Meta>, cols: seq<Column>)
    requires AllRead(data, metas, cols)
    ensures ReadColumns(data, metas) == Some(cols)
  {
    if cols != [] {
      AllReadGives(data, metas[1..], cols[1..]);
      assert cols == [cols[0]] + cols[1..];
    }
  }

  // Every entry leads to its payload.
  lemma ColumnsRead(data: Bytes, front: Bytes, cols: seq<Column>, parts: seq<Bytes>, metas: seq<Meta>)
    requires AllDecode(parts, cols) && data == front + Concat(parts) && metas == MetasOf(cols, parts, |front|)
    ensures ReadColumns(data, metas) == Some(cols)
  {
    forall i | 0 <= i < |cols| ensures ReadColumn(data, metas[i]) == Some(cols[i]) {
      EntryHasOffset(cols, parts, |front|, i);
      PartIsThere(parts, front, i);
      ColumnReads(data, OffsetOf(parts, i, |front|), cols[i], parts[i]);
    }
    AllReadGives(data, metas, cols);
  }

  // ---------- the file ----------

  ghost predicate Writable(lib: Library, cols: seq<Column>) {
    Describable(cols) && AllFitting(HDF5_CODING, cols) && |FileOf(lib, cols)| < TWO_64
  }

  lemma AdaptKeeps(lib: Library)
    ensures KeepsFitting(HDF5_CODING, lib)
  {}

  lemma PayloadsDecode(lib: Library, cols: seq<Column>)
    requires Describable(cols) && AllFitting(HDF5_CODING, cols)
    ensures AllDecode(PayloadsOf(lib, cols), cols)
  {
    var parts := PayloadsOf(lib, cols);
    forall i | 0 <= i < |cols| ensures Decodes(parts[i], cols[i]) {
      var kind, values := KindOf(cols[i].code), cols[i].values;
      AdaptKeeps(lib);
      FittingIsKept(HDF5_CODING, lib, kind, values);
      forall behind ensures ReadValues(kind, |values|, parts[i] + behind) == Listing(values, behind) {
        ValuesRead(kind, values, behind);
      }
    }
  }

  // A superblock that sends the reader to the directory behind it.
  ghost predicate Leads(head: Bytes) {
    |head| == SUPERBLOCK && head[..8] == SIGNATURE && head[8] == 0 && FromLittleEndian(head[48..]) == SUPERBLOCK
  }

  lemma SuperblockLeads(end: nat)
    ensures Leads(Superblock(end))
  {
    Uint64Reads(SUPERBLOCK);
    assert Superblock(end)[48..] == LittleEndian(8, SUPERBLOCK);
    assert Superblock(end)[..8] == SIGNATURE;
  }

  // Main result: the reader follows the patched offsets back to every column.
  lemma ColumnsRoundTrip(lib: Library, cols: seq<Column>)
    requires Writable(lib, cols)
    ensures ReadFile(FileOf(lib, cols)) == Some(cols)
  {
    var parts := PayloadsOf(lib, cols);
    PayloadsDecode(lib, cols);
    FileReads(FileOf(lib, cols), cols, parts);
  }

  lemma FileReads(data: Bytes, cols: seq<Column>, parts: seq<Bytes>)
    requires AllDecode(parts, cols) && Describable(cols)
    requires data == FileFront(cols, parts) + Concat(parts) && |data| < TWO_64
    ensures ReadFile(data) == Some(cols)
  {
    var head := FrontLeads(cols, parts);
    DirectoryIsFound(head, cols, parts, data, DataOffset(cols), Concat(parts), Entries(cols, parts, DataOffset(cols)));
    ColumnsRead(data, FileFront(cols, parts), cols, parts, MetasOf(cols, parts, DataOffset(cols)));
  }

  lemma FrontLeads(cols: seq<Column>, parts: seq<Bytes>) returns (head: Bytes)
    requires |parts| == |cols|
    ensures Leads(head) && |FileFront(cols, parts)| == DataOffset(cols)
    ensures FileFront(cols, parts) == head + (LittleEndian(4, |cols|) + Entries(cols, parts, DataOffset(cols)))
  {
    head := Superblock(DataOffset(cols) + |Concat(parts)|);
    SuperblockLeads(DataOffset(cols) + |Concat(parts)|);
    EntriesLength(cols, parts, DataOffset(cols));
  }

  lemma DirectoryIsFound(head: Bytes, cols: seq<Column>, parts: seq<Bytes>, data: Bytes, start: nat, payloads: Bytes,
                         entries: Bytes)
    requires |parts| == |cols| && Describable(cols) && start + |payloads| < TWO_64 && payloads == Concat(parts)
    requires entries == Entries(cols, parts, start)
    requires Leads(head) && data == head + (LittleEndian(4, |cols|) + entries) + payloads
    ensures ReadFile(data) == ReadColumns(data, MetasOf(cols, parts, start))
  {
    MetasRead(cols, parts, start, payloads);
    DirectoryFollows(head, data, |cols|, entries, payloads, MetasOf(cols, parts, start));
  }

  lemma DirectoryFollows(head: Bytes, data: Bytes, n: nat, entries: Bytes, payloads: Bytes, metas: seq<Meta>)
    requires n < TWO_32 && Leads(head) && data == head + (LittleEndian(4, n) + entries) + payloads
    requires ReadMetas(n, entries + payloads) == Listing(metas, payloads)
    ensures ReadFile(data) == ReadColumns(data, metas)
  {
    var dir := LittleEndian(4, n) + (entries + payloads);
    Rejoin(head, LittleEndian(4, n) + entries, payloads);
    Rejoin(LittleEndian(4, n), entries, payloads);
    CountReads(n, entries + payloads);
    DirectoryReads(head, data, dir, n, metas, payloads);
  }

  lemma DirectoryReads(head: Bytes, data: Bytes, dir: Bytes, n: nat, metas: seq<Meta>, payloads: Bytes)
    requires Leads(head) && data == head + dir && |dir| >= 4
    requires FromLittleEndian(dir[..4]) == n && ReadMetas(n, dir[4..]) == Listing(metas, payloads)
    ensures ReadFile(data) == ReadColumns(data, metas)
  {
    assert data[48..56] == head[48..] && data[..8] == head[..8] && data[SUPERBLOCK..] == dir;
  }

  lemma CountReads(n: nat, rest: Bytes)
    requires n < TWO_32
    ensures var dir := LittleEndian(4, n) + rest; FromLittleEndian(dir[..4]) == n && dir[4..] == rest
  {
    var dir := LittleEndian(4, n) + rest;
    Uint32Reads(n);
    assert dir[..4] == LittleEndian(4, n) && dir[4..] == rest;
  }

  // ---------- what the reader can return ----------

  lemma {:induction false} MetasAreNarrow(count: nat, s: Bytes)
    requires ReadMetas(count, s).Listing?
    ensures forall i | 0 <= i < count :: var m := ReadMetas(count, s).items[i]; |m.name| < 0x1_0000 && m.count < TWO_64
    decreases count
  {
    if count > 0 {
      var m := ReadMeta(s);
      MetaIsNarrow(s);
      MetasAreNarrow(count - 1, m.rest);
      assert ReadMetas(count, s).items == [m.meta] + ReadMetas(count - 1, m.rest).items;
    }
  }

  lemma MetaIsNarrow(s: Bytes)
    requires ReadMeta(s).GotMeta?
    ensures var m := ReadMeta(s).meta; |m.name| < 0x1_0000 && m.count < TWO_64
  {
    var n, body := FromLittleEndian(s[..2]), s[2..];
    FromLittleEndianBound(s[..2]);
    FromLittleEndianBound(body[n + 1..n + 9]);
    Pow256Widths();
  }

  // A column that is read has the name, the type and the number of values its entry says, and only values
  // of that type.
  ghost predicate Describes(m: Meta, c: Column) {
    && c.name == m.name && c.code == m.code && |c.values| == m.count
    && forall k | 0 <= k < |c.values| :: Fitting(KindOf(c.code), c.values[k])
  }

  lemma {:induction false} ColumnsAreDescribed(data: Bytes, metas: seq<Meta>)
    requires ReadColumns(data, metas).Some?
    ensures forall i | 0 <= i < |metas| :: Describes(metas[i], ReadColumns(data, metas).value[i])
  {
    if metas != [] {
      var m := metas[0];
      AllReadFit(KindOf(m.code), m.count, data[m.offset..]);
      ColumnsAreDescribed(data, metas[1..]);
      var cols, more := ReadColumns(data, metas).value, ReadColumns(data, metas[1..]).value;
      forall i | 0 <= i < |metas| ensures Describes(metas[i], cols[i]) {
        assert i > 0 ==> cols[i] == more[i - 1] && metas[i] == metas[1..][i - 1];
      }
    }
  }

  // Whatever file is read, its columns are describable and hold only values of their types.
  lemma ReadIsDescribable(data: Bytes)
    requires ReadFile(data).Some?
    ensures Describable(ReadFile(data).value) && AllFitting(HDF5_CODING, ReadFile(data).value)
  {
    var dir := data[FromLittleEndian(data[48..56])..];
    var count := FromLittleEndian(dir[..4]);
    var metas := ReadMetas(count, dir[4..]).items;
    FromLittleEndianBound(dir[..4]);
    Pow256Widths();
    MetasAreNarrow(count, dir[4..]);
    ColumnsAreDescribed(data, metas);
    var cols := ReadFile(data).value;
    forall c | c in cols ensures |c.name| < 0x1_0000 && |c.values| < TWO_64 {
      var i :| 0 <= i < |cols| && cols[i] == c;
      assert Describes(metas[i], cols[i]);
    }
    forall i, k | 0 <= i < |cols| && 0 <= k < |cols[i].values| ensures Fitting(KindOf(cols[i].code), cols[i].values[k]) {
      assert Describes(metas[i], cols[i]);
    }
  }

  // ---------- values that do not have the type of their column ----------

  // A value comes back exactly if it has the dynamic type of the kind it is written as.
  lemma ValueComesBackIff(lib: Library, kind: Kind, v: Value, rest: Bytes)
    ensures ReadValue(kind, Encode(kind, Adapted(lib, kind, v)) + rest) == GotValue(v, rest) <==> Fitting(kind, v)
  {
    AdaptKeeps(lib);
    ValueSurvivesIff(HDF5_CODING, lib, kind, v, rest);
  }

  ghost predicate AllShort(lib: Library, cols: seq<Column>) {
    forall i | 0 <= i < |cols| :: ShortTexts(HDF5_CODING, lib, cols[i])
  }

  lemma {:induction false} SameEntries(cols: seq<Column>, cols': seq<Column>, parts: seq<Bytes>, offset: nat)
    requires |cols| == |cols'| == |parts|
    requires forall i | 0 <= i < |cols| :: EntryFront(cols[i]) == EntryFront(cols'[i])
    ensures Entries(cols, parts, offset) == Entries(cols', parts, offset) && EntriesSize(cols) == EntriesSize(cols')
    decreases cols
  {
    if cols != [] {
      SameEntries(cols[1..], cols'[1..], parts[1..], offset + |parts[0]|);
    }
  }

  lemma SameFront(cols: seq<Column>, cols': seq<Column>, parts: seq<Bytes>)
    requires |cols| == |cols'| == |parts|
    requires forall i | 0 <= i < |cols| :: EntryFront(cols[i]) == EntryFront(cols'[i])
    ensures FileFront(cols, parts) == FileFront(cols', parts)
  {
    SameEntries(cols, cols', parts, DataOffset(cols));
  }

  lemma StoredPayloads(lib: Library, cols: seq<Column>, stored: seq<Column>)
    requires AllShort(lib, cols) && stored == StoredAll(HDF5_CODING, lib, cols)
    ensures PayloadsOf(lib, stored) == PayloadsOf(lib, cols) && AllFitting(HDF5_CODING, stored)
  {
    AdaptKeeps(lib);
    forall i | 0 <= i < |cols|
      ensures PayloadsOf(lib, stored)[i] == PayloadsOf(lib, cols)[i]
      ensures forall k | 0 <= k < |stored[i].values| :: Fitting(KindOf(stored[i].code), stored[i].values[k])
    {
      StoredFits(HDF5_CODING, lib, cols[i]);
    }
  }

  // What is written for some columns is what is written for those that come back.
  lemma StoredIsWrittenAlike(lib: Library, cols: seq<Column>, stored: seq<Column>)
    requires AllShort(lib, cols) && stored == StoredAll(HDF5_CODING, lib, cols)
    ensures FileOf(lib, stored) == FileOf(lib, cols) && AllFitting(HDF5_CODING, stored)
  {
    StoredPayloads(lib, cols, stored);
    SameFront(cols, stored, PayloadsOf(lib, cols));
  }

  // Main result: whatever the values are, every column comes back with what is left of them when they are
  // written as its type.
  lemma StoredComesBack(lib: Library, cols: seq<Column>)
    requires Describable(cols) && AllShort(lib, cols) && |FileOf(lib, cols)| < TWO_64
    ensures ReadFile(FileOf(lib, cols)) == Some(StoredAll(HDF5_CODING, lib, cols))
  {
    StoredIsWrittenAlike(lib, cols, StoredAll(HDF5_CODING, lib, cols));
    ColumnsRoundTrip(lib, StoredAll(HDF5_CODING, lib, cols));
  }

  // A uint32 in an int32 column comes back as 0.
  lemma Uint32IsLost(lib: Library, cols: seq<Column>, i: nat, k: nat)
    requires Describable(cols) && AllShort(lib, cols) && |FileOf(lib, cols)| < TWO_64
    requires i < |cols| && k < |cols[i].values| && cols[i].code == 0 && cols[i].values[k].Uint32?
    ensures var back := ReadFile(FileOf(lib, cols));
            back.Some? && i < |back.value| && k < |back.value[i].values| && back.value[i].values[k] == Int32(0)
  {
    StoredComesBack(lib, cols);
  }
}
