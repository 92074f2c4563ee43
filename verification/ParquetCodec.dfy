/** The Parquet writer, which notes where each chunk lands before it writes the footer, and the reader. */
module ParquetCodec {
  import opened ByteStrings
  import opened Columns
  import opened ParquetFormat
  import opened PlainValues
  import opened Segments
  import opened Uir

  // A column with the place of its chunk, filled in when the chunk is written.
  datatype Placed = Placed(column: Column, offset: nat, length: nat)

  // ---------- writing ----------

  method WritePage(lib: Library, c: Column) returns (page: Bytes)
    ensures page == Chunk(lib, c)
  {
    var payload := WriteValues(PARQUET_CODING, lib, KindOf(c.code), c.values);
    page := Page(|c.values|, payload);
  }

  // The first `done` columns know the place of their chunks.
  ghost predicate PlacesKnown(placed: seq<Placed>, cols: seq<Column>, parts: seq<Bytes>, done: nat) {
    && |placed| == |cols| == |parts| && done <= |cols|
    && (forall k | 0 <= k < |cols| :: placed[k].column == cols[k])
    && (forall k | 0 <= k < done :: placed[k].offset == OffsetOf(parts, k, |MAGIC|) && placed[k].length == |parts[k]|)
  }

  method WriteChunks(lib: Library, placed: array<Placed>, ghost cols: seq<Column>) returns (body: Bytes)
    requires PlacesKnown(placed[..], cols, ChunksOf(lib, cols), 0)
    modifies placed
    ensures body == MAGIC + Concat(ChunksOf(lib, cols))
    ensures PlacesKnown(placed[..], cols, ChunksOf(lib, cols), |cols|)
  {
    ghost var parts := ChunksOf(lib, cols);
    body := MAGIC;
    assert parts[0..] == parts;
    for i := 0 to placed.Length
      invariant PlacesKnown(placed[..], cols, parts, i)
      invariant body + Concat(parts[i..]) == MAGIC + Concat(parts) && |body| == OffsetOf(parts, i, |MAGIC|)
    {
      var page := WritePage(lib, placed[i].column);
      assert page == parts[i] && parts[i..][1..] == parts[i + 1..];
      NextOffset(parts, |MAGIC|, i);
      Rejoin(body, page, Concat(parts[i + 1..]));
      placed[i] := placed[i].(offset := |body|, length := |page|);
      body := body + page;
    }
    assert body + [] == body;
  }

  method WriteFooter(rows: nat, placed: seq<Placed>, ghost cols: seq<Column>, ghost parts: seq<Bytes>) returns (meta: Bytes)
    requires PlacesKnown(placed, cols, parts, |cols|)
    ensures meta == Footer(rows, cols, parts)
  {
    meta := LittleEndian(4, 1) + LittleEndian(4, rows) + LittleEndian(4, |placed|);
    assert cols[0..] == cols && parts[0..] == parts;
    for i := 0 to |placed|
      invariant meta + Entries(cols[i..], parts[i..], OffsetOf(parts, i, |MAGIC|)) == Footer(rows, cols, parts)
    {
      var entry := Entry(placed[i].column, placed[i].offset, placed[i].length);
      NextOffset(parts, |MAGIC|, i);
      NextEntry(cols, parts, i, entry);
      Rejoin(meta, entry, Entries(cols[i + 1..], parts[i + 1..], OffsetOf(parts, i + 1, |MAGIC|)));
      meta := meta + entry;
    }
    assert meta + [] == meta;
  }

  lemma NextEntry(cols: seq<Column>, parts: seq<Bytes>, i: nat, entry: Bytes)
    requires |parts| == |cols| && i < |cols| && entry == Entry(cols[i], OffsetOf(parts, i, |MAGIC|), |parts[i]|)
    ensures Entries(cols[i..], parts[i..], OffsetOf(parts, i, |MAGIC|))
         == entry + Entries(cols[i + 1..], parts[i + 1..], OffsetOf(parts, i, |MAGIC|) + |parts[i]|)
  {
    assert cols[i..][1..] == cols[i + 1..] && parts[i..][1..] == parts[i + 1..];
  }

  // Nil records and fields make the source panic.
  method GenerateParquet(lib: Library, n: Node) returns (r: Option<Bytes>)
    ensures r == Encoded(lib, n)
  {
    var rows := RowsOf(n);
    if rows == [] {
      return Some(EmptyFile(lib));
    }
    if !NoNil(rows) {
      return None;
    }
    var cols := BuildColumns(rows, CodeOf);
    var placed := new Placed[|cols|](i requires 0 <= i < |cols| => Placed(cols[i], 0, 0));
    assert PlacesKnown(placed[..], cols, ChunksOf(lib, cols), 0);
    var body := WriteChunks(lib, placed, cols);
    var meta := WriteFooter(|rows|, placed[..], cols, ChunksOf(lib, cols));
    return Some(body + (meta + (LittleEndian(4, |meta|) + MAGIC)));
  }

  // What is written for a document without records.
  function EmptyFile(lib: Library): (b: Bytes)
    ensures b == FileOf(lib, 0, [])
  {
    assert MAGIC + [] == MAGIC;
    assert Footer(0, [], []) == LittleEndian(4, 1) + LittleEndian(4, 0) + LittleEndian(4, 0);
    MAGIC + (LittleEndian(4, 1) + LittleEndian(4, 0) + LittleEndian(4, 0) + (LittleEndian(4, 12) + MAGIC))
  }

  // ---------- reading ----------

  method ReadFooterEntries(count: nat, s: Bytes) returns (r: Option<seq<Meta>>)
    ensures var all := ReadMetas(count, s); r == if all.NoListing? then None else Some(all.items)
  {
    var metas: seq<Meta>, rest := [], s;
    ghost var left := count;
    BehindNone(ReadMetas(count, s));
    for i := 0 to count
      invariant left == count - i
      invariant Behind(metas, ReadMetas(left, rest)) == ReadMetas(count, s)
    {
      var m := ReadMeta(rest);
      if m.NoMeta? {
        return None;
      }
      BehindTwice(metas, [m.meta], ReadMetas(left - 1, m.rest));
      metas, rest, left := metas + [m.meta], m.rest, left - 1;
    }
    assert metas + [] == metas;
    return Some(metas);
  }

  method ReadChunk(data: Bytes, m: Meta) returns (c: Option<Column>)
    ensures c == ReadColumn(data, m)
  {
    if m.offset + m.length > |data| || m.length < 10 {
      return None;
    }
    var chunk := data[m.offset..];
    var size, count := FromLittleEndian(chunk[1..5]), FromLittleEndian(chunk[5..9]);
    if chunk[0] != 0 || chunk[9] != 0 || 10 + size >= TWO_32 || |chunk| < 10 + size {
      return None;
    }
    var values := ReadAll(chunk[10..10 + size], KindOf(m.code), count);
    if values.None? {
      return None;
    }
    return Some(Column(m.name, m.code, values.value));
  }

  method ReadChunks(data: Bytes, metas: seq<Meta>) returns (r: Option<seq<Column>>)
    ensures r == ReadColumns(data, metas)
  {
    var cols: seq<Column> := [];
    assert metas[0..] == metas;
    PrefixedByNothing(ReadColumns(data, metas));
    for i := 0 to |metas|
      invariant Prefixed(cols, ReadColumns(data, metas[i..])) == ReadColumns(data, metas)
    {
      assert metas[i..][1..] == metas[i + 1..];
      var c := ReadChunk(data, metas[i]);
      if c.None? {
        return None;
      }
      PrefixedTwice(cols, [c.value], ReadColumns(data, metas[i + 1..]));
      cols := cols + [c.value];
    }
    assert cols + [] == cols;
    return Some(cols);
  }

  method BuildTree(rows: nat, cols: seq<Column>) returns (t: Node)
    ensures t == TreeOf(rows, cols)
  {
    var nodes := BuildRows(cols, rows, TypeOfCode);
    if rows == 1 {
      return nodes[0];
    }
    t := NewNode(TypeArray, Ascii("Root"), NoValue);
    t := t.(elementType := TypeMap, children := nodes);
  }

  method ParseParquet(data: Bytes) returns (r: Option<Node>)
    ensures r == Parsed(data)
  {
    if |data| < 12 || data[..4] != MAGIC || data[|data| - 4..] != MAGIC {
      return None;
    }
    var metaLen := FromLittleEndian(data[|data| - 8..|data| - 4]);
    if metaLen + 8 > |data| {
      return None;
    }
    var meta := data[|data| - 8 - metaLen..|data| - 8];
    if |meta| < 12 || FromLittleEndian(meta[..4]) != 1 {
      return None;
    }
    var numRows, numCols := FromLittleEndian(meta[4..8]), FromLittleEndian(meta[8..12]);
    var metas := ReadFooterEntries(numCols, meta[12..]);
    if metas.None? {
      return None;
    }
    var cols := ReadChunks(data, metas.value);
    if cols.None? {
      return None;
    }
    var t := BuildTree(numRows, cols.value);
    return Some(t);
  }
}
