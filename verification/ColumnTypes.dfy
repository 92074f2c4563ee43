/** What the columnar formats make of values, type by type, and which types they support. */
module ColumnTypes {
  import opened ByteStrings
  import opened Conversions
  import opened Floats
  import opened PlainValues
  import opened Columns
  import opened Records
  import Segments
  import opened Uir
  import H = Hdf5Format
  import HT = Hdf5Theorems
  import P = ParquetFormat
  import PT = ParquetTheorems

  // ---------- which types are supported ----------

  // A field that HDF5 keeps as it is.
  predicate Hdf5Keeps(c: Node) {
    c.Node? &&
    match c.typ
    case TypeInt32 => c.value.Int32?
    case TypeInt64 => c.value.Int64?
    case TypeFloat32 => c.value.Float32?
    case TypeFloat64 => c.value.Float64?
    case TypeBoolean => c.value.Bool?
    case TypeString => c.value.Str? && |c.value.s| < 0x1_0000_0000
    case TypeBytes => c.value.Blob? && |c.value.s| < 0x1_0000_0000
    case _ => false
  }

  // Parquet has no bytes.
  predicate ParquetKeeps(c: Node) {
    Hdf5Keeps(c) && c.typ != TypeBytes
  }

  lemma SupportedTypes(c: Node)
    ensures Supported(H.HDF5_CODING, c) <==> Hdf5Keeps(c)
    ensures Supported(P.PARQUET_CODING, c) <==> ParquetKeeps(c)
  {}

  // ---------- what other values become ----------

  // A value as it comes back from a column of this kind.
  function Hdf5Cell(lib: Library, kind: Kind, v: Value): Value {
    Kept(kind, H.Adapted(lib, kind, v))
  }

  function ParquetCell(lib: Library, kind: Kind, v: Value): Value {
    Kept(kind, P.Adapted(lib, kind, v))
  }

  ghost predicate IsInt64Of(w: Value, i: int) {
    && w.Int64? && Congruent(w.i, i, 0x1_0000_0000_0000_0000)
    && (-0x8000_0000_0000_0000 <= i <= 0x7FFF_FFFF_FFFF_FFFF ==> w.i == i)
  }

  ghost predicate IsInt32Of(w: Value, i: int) {
    && w.Int32? && Congruent(w.i32, i, 0x1_0000_0000)
    && (-0x8000_0000 <= i <= 0x7FFF_FFFF ==> w.i32 == i)
  }

  // Any integer in an int64 column is kept modulo 2^64.
  lemma Int64Cells(lib: Library, v: Value)
    requires IsWhole(v)
    ensures IsInt64Of(Hdf5Cell(lib, KInt64, v), NumberOf(v)) && IsInt64Of(ParquetCell(lib, KInt64, v), NumberOf(v))
  {
    AsInt64IsCongruent(lib.floats, v);
  }

  // In an int32 column an int32 or int64 is kept modulo 2^32, in Parquet also a uint32; other integers become 0.
  lemma Int32Cells(lib: Library, v: Value)
    requires IsWhole(v)
    ensures if v.Int32? || v.Int64? then IsInt32Of(Hdf5Cell(lib, KInt32, v), NumberOf(v))
            else Hdf5Cell(lib, KInt32, v) == Int32(0)
    ensures if v.Int32? || v.Int64? || v.Uint32? then IsInt32Of(ParquetCell(lib, KInt32, v), NumberOf(v))
            else ParquetCell(lib, KInt32, v) == Int32(0)
  {
    if v.Int64? {
      Int32Cell(v.i);
    } else if v.Uint32? {
      NarrowIsCongruent(v.u32);
      if v.u32 <= 0x7FFF_FFFF {
        CongruentAndClose(ToInt32(v.u32), v.u32, 0x1_0000_0000);
      }
    }
  }

  lemma Int32Cell(i: int64)
    ensures IsInt32Of(Int32(ToInt32(Wrap(i))), i)
  {
    assert Congruent(Wrap(i), i, 0x1_0000_0000_0000_0000);
    CongruentBelow(Wrap(i), i);
    NarrowIsCongruent(Wrap(i));
    CongruentTwice(ToInt32(Wrap(i)), Wrap(i), i, 0x1_0000_0000);
    Narrows(i);
  }

  // A boolean in an int32 column is kept as 0 or 1 by HDF5 and lost by Parquet.
  lemma BooleanCells(lib: Library, b: bool)
    ensures Hdf5Cell(lib, KInt32, Bool(b)) == Int32(if b then 1 else 0) && ParquetCell(lib, KInt32, Bool(b)) == Int32(0)
  {}

  // A finite float32 in a double column keeps its sign and magnitude.
  lemma DoubleCells(lib: Library, bits: uint32)
    requires (bits / 0x80_0000) % 256 != 255
    ensures var w := Hdf5Cell(lib, KDouble, Float32(bits));
            && ParquetCell(lib, KDouble, Float32(bits)) == w
            && w.Float64? && Agrees(w.bits, bits / 0x8000_0000, SingleMagnitude(bits))
  {
    SingleExpansionIsExact(bits);
  }

  // In a text column nothing becomes the empty text; bytes are kept by Parquet, and rendered by HDF5.
  lemma TextCells(lib: Library, s: GoBytes)
    ensures Hdf5Cell(lib, KText, NoValue) == ParquetCell(lib, KText, NoValue) == Str([])
    ensures Hdf5Cell(lib, KText, Str(s)) == ParquetCell(lib, KText, Str(s)) == ParquetCell(lib, KText, Blob(s)) == Str(s)
    ensures Hdf5Cell(lib, KText, Blob(s)) == Str(lib.sprint(Blob(s)))
  {}

  // ---------- in files ----------

  ghost predicate HasCell(cols: seq<Column>, i: nat, k: nat, v: Value) {
    i < |cols| && k < |cols[i].values| && cols[i].values[k] == v
  }

  // Every cell of a file is read back as what its value becomes.
  lemma Hdf5CellComesBack(lib: Library, cols: seq<Column>, i: nat, k: nat)
    requires HT.Describable(cols) && HT.AllShort(lib, cols) && |H.FileOf(lib, cols)| < TWO_64
    requires i < |cols| && k < |cols[i].values|
    ensures var back := H.ReadFile(H.FileOf(lib, cols));
            back.Some? && HasCell(back.value, i, k, Hdf5Cell(lib, H.KindOf(cols[i].code), cols[i].values[k]))
  {
    HT.StoredComesBack(lib, cols);
  }

  lemma ParquetCellComesBack(lib: Library, rows: nat, cols: seq<Column>, i: nat, k: nat)
    requires PT.Sized(lib, rows, cols) && PT.Named(cols) && PT.AllShort(lib, cols)
    requires i < |cols| && k < |cols[i].values|
    ensures var back := P.ReadFile(P.FileOf(lib, rows, cols));
            back.Table? && HasCell(back.columns, i, k, ParquetCell(lib, P.KindOf(cols[i].code), cols[i].values[k]))
  {
    PT.StoredComesBack(lib, rows, cols);
  }

  // A Parquet file starts and ends with its magic number, behind the length of its footer.
  lemma ParquetEnds(lib: Library, rows: nat, cols: seq<Column>)
    requires |P.Footer(rows, cols, P.ChunksOf(lib, cols))| < TWO_32
    ensures var data, footer := P.FileOf(lib, rows, cols), P.Footer(rows, cols, P.ChunksOf(lib, cols));
            && |data| >= 12 && data[..4] == [0x50, 0x41, 0x52, 0x31] && data[|data| - 4..] == [0x50, 0x41, 0x52, 0x31]
            && FromLittleEndian(data[|data| - 8..|data| - 4]) == |footer|
            && |footer| <= |data| - 8 && data[|data| - 8 - |footer|..|data| - 8] == footer
  {
    var data, footer := P.FileOf(lib, rows, cols), P.Footer(rows, cols, P.ChunksOf(lib, cols));
    var length := LittleEndian(4, |footer|);
    EndsOf(P.MAGIC + Segments.Concat(P.ChunksOf(lib, cols)), footer, length, P.MAGIC, data);
    Uint32Reads(|footer|);
    assert (P.MAGIC + Segments.Concat(P.ChunksOf(lib, cols)))[..4] == P.MAGIC;
  }

  lemma EndsOf(front: Bytes, footer: Bytes, length: Bytes, magic: Bytes, data: Bytes)
    requires |front| >= 4 && |length| == 4 && |magic| == 4 && data == front + (footer + (length + magic))
    ensures data[..4] == front[..4] && data[|data| - 4..] == magic && data[|data| - 8..|data| - 4] == length
    ensures data[|data| - 8 - |footer|..|data| - 8] == footer
  {}

  // ---------- which records a document has ----------

  // A map with one of the four root names around a single map is that map; any other node that is not an array is a
  // record itself.
  predicate IsRootName(key: Bytes) {
    key in {[0x52, 0x6F, 0x6F, 0x74], [0x72, 0x6F, 0x6F, 0x74],
            [0x67, 0x72, 0x61, 0x70, 0x68, 0x71, 0x6C, 0x5F, 0x72, 0x6F, 0x6F, 0x74],
            [0x70, 0x72, 0x6F, 0x74, 0x6F, 0x5F, 0x72, 0x6F, 0x6F, 0x74]}
  }

  lemma RecordsOfDocument(n: Node)
    requires n.Node?
    ensures n.typ == TypeArray ==> RowsOf(n) == n.children
    ensures n.typ != TypeArray ==>
              if n.typ == TypeMap && IsRootName(n.key) && |n.children| == 1 && n.children[0].Node? && n.children[0].typ == TypeMap
              then RowsOf(n) == n.children else RowsOf(n) == [n]
  {
    RootNames();
  }

  lemma RootNames()
    ensures Ascii("Root") == [0x52, 0x6F, 0x6F, 0x74] && Ascii("root") == [0x72, 0x6F, 0x6F, 0x74]
    ensures Ascii("graphql_root") == [0x67, 0x72, 0x61, 0x70, 0x68, 0x71, 0x6C, 0x5F, 0x72, 0x6F, 0x6F, 0x74]
    ensures Ascii("proto_root") == [0x70, 0x72, 0x6F, 0x74, 0x6F, 0x5F, 0x72, 0x6F, 0x6F, 0x74]
  {}
}
