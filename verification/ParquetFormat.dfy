/** The Parquet subset: column chunks behind a magic number, and a footer that is found from the end. */
module ParquetFormat {
  import opened ByteStrings
  import opened Columns
  import opened Conversions
  import opened Floats
  import opened PlainValues
  import opened Segments
  import opened Uir

  const MAGIC: Bytes := [0x50, 0x41, 0x52, 0x31]

  function CodeOf(t: UirType): byte {
    match t
    case TypeBoolean => 0
    case TypeInt32 => 1 case TypeUInt32 => 1 case TypeSInt32 => 1 case TypeFixed32 => 1 case TypeSFixed32 => 1
    case TypeInt64 => 2 case TypeUInt64 => 2 case TypeSInt64 => 2 case TypeFixed64 => 2 case TypeSFixed64 => 2
    case TypeFloat32 => 3
    case TypeFloat64 => 4
    case _ => 5
  }

  function TypeOfCode(code: byte): UirType {
    match code
    case 0 => TypeBoolean case 1 => TypeInt32 case 2 => TypeInt64 case 3 => TypeFloat32 case 4 => TypeFloat64
    case _ => TypeString
  }

  function KindOf(code: byte): Kind {
    match code case 0 => KBool case 1 => KInt32 case 2 => KInt64 case 3 => KFloat case 4 => KDouble case _ => KText
  }

  const PARQUET_CODING := Coding(CodeOf, TypeOfCode, KindOf, Adapted)

  // What the writer makes of a value before it writes it as one of this kind. Bytes are written as text.
  function Adapted(lib: Library, kind: Kind, v: Value): Value {
    match kind
    case KInt32 =>
      (match v case Int64(i) => Int32(ToInt32(Wrap(i))) case Uint32(u) => Int32(ToInt32(u)) case _ => v)
    case KInt64 => Int64(AsInt64(lib.floats, v))
    case KFloat => if v.Float64? then Float32(lib.floats.toFloat32(v.bits)) else v
    case KDouble => if v.Float32? then Float64(SingleToDouble(v.bits32)) else v
    case KText =>
      (match v case Str(_) => v case Blob(s) => Str(s) case NoValue => Str([]) case _ => Str(lib.sprint(v)))
    case _ => v
  }

  // ---------- the file ----------

  // A chunk is one data page.
  function Page(count: nat, payload: Bytes): Bytes {
    [0] + LittleEndian(4, |payload|) + LittleEndian(4, count) + [0] + payload
  }

  function Chunk(lib: Library, c: Column): Bytes {
    Page(|c.values|, EncodeAll(KindOf(c.code), AdaptedAll(PARQUET_CODING, lib, KindOf(c.code), c.values)))
  }

  function ChunksOf(lib: Library, cols: seq<Column>): (parts: seq<Bytes>)
    ensures |parts| == |cols|
  {
    seq(|cols|, i requires 0 <= i < |cols| => Chunk(lib, cols[i]))
  }

  function Entry(c: Column, offset: nat, length: nat): Bytes {
    LittleEndian(2, |c.name|) + c.name + [c.code] + LittleEndian(8, offset) + LittleEndian(8, length)
      + LittleEndian(4, |c.values|)
  }

  // The entries of columns with these chunks when the first chunk starts at `offset`.
  function Entries(cols: seq<Column>, parts: seq<Bytes>, offset: nat): Bytes
    requires |parts| == |cols|
  {
    if cols == [] then []
    else Entry(cols[0], offset, |parts[0]|) + Entries(cols[1..], parts[1..], offset + |parts[0]|)
  }

  function Footer(rows: nat, cols: seq<Column>, parts: seq<Bytes>): Bytes
    requires |parts| == |cols|
  {
    LittleEndian(4, 1) + LittleEndian(4, rows) + LittleEndian(4, |cols|) + Entries(cols, parts, |MAGIC|)
  }

  function FileWith(rows: nat, cols: seq<Column>, parts: seq<Bytes>): Bytes
    requires |parts| == |cols|
  {
    (MAGIC + Concat(parts)) + (Footer(rows, cols, parts) + (LittleEndian(4, |Footer(rows, cols, parts)|) + MAGIC))
  }

  function FileOf(lib: Library, rows: nat, cols: seq<Column>): Bytes {
    FileWith(rows, cols, ChunksOf(lib, cols))
  }

  function Encoded(lib: Library, n: Node): Option<Bytes> {
    var rows := RowsOf(n);
    if NoNil(rows) then Some(FileOf(lib, |rows|, ColumnsOf(rows, CodeOf))) else None
  }

  // ---------- reading ----------

  datatype Meta = Meta(name: GoBytes, code: byte, offset: nat, length: nat)
  datatype MetaResult = NoMeta | GotMeta(meta: Meta, rest: Bytes)

  // The number of values in an entry is not used.
  function ReadMeta(s: Bytes): (r: MetaResult)
    ensures r.GotMeta? ==> |r.rest| < |s|
  {
    if |s| < 2 then NoMeta
    else
      FromLittleEndianBound(s[..2]);
      Pow256Widths();
      var n, body := FromLittleEndian(s[..2]), s[2..];
      if |body| < n + 21 then NoMeta
      else
        GotMeta(Meta(body[..n], body[n], FromLittleEndian(body[n + 1..n + 9]), FromLittleEndian(body[n + 9..n + 17])),
                body[n + 21..])
  }

  function ReadMetas(count: nat, s: Bytes): (r: Listing<Meta>)
    ensures r.Listing? ==> |r.items| == count
  {
    if count == 0 then Listing([], s)
    else
      var m := ReadMeta(s);
      if m.NoMeta? then NoListing else Behind([m.meta], ReadMetas(count - 1, m.rest))
  }

  function ReadColumn(data: Bytes, m: Meta): Option<Column> {
    if m.offset + m.length > |data| || m.length < 10 then None else ReadPage(m.name, m.code, data[m.offset..])
  }

  // The page at the start of a chunk and all that follows. Its payload may reach past the chunk up to the
  // end of the data, where the source slices out of range. So it does if the end of the payload, a sum in 32
  // bits, wraps around.
  function ReadPage(name: GoBytes, code: byte, chunk: Bytes): Option<Column>
    requires |chunk| >= 10
  {
    var size, count := FromLittleEndian(chunk[1..5]), FromLittleEndian(chunk[5..9]);
    if chunk[0] != 0 || chunk[9] != 0 || 10 + size >= TWO_32 || |chunk| < 10 + size then None
    else
      var v := ReadValues(KindOf(code), count, chunk[10..10 + size]);
      if v.NoListing? then None else Some(Column(name, code, v.items))
  }

  function ReadColumns(data: Bytes, metas: seq<Meta>): (r: Option<seq<Column>>)
    ensures r.Some? ==> |r.value| == |metas|
  {
    if metas == [] then Some([])
    else
      var c := ReadColumn(data, metas[0]);
      if c.None? then None else Prefixed([c.value], ReadColumns(data, metas[1..]))
  }

  datatype Table = NoTable | Table(rows: nat, columns: seq<Column>)

  // The footer lies in front of its own length and the closing magic number.
  function FooterOf(data: Bytes): Option<Bytes> {
    if |data| < 12 || data[..4] != MAGIC || data[|data| - 4..] != MAGIC then None
    else
      var length := FromLittleEndian(data[|data| - 8..|data| - 4]);
      if length + 8 > |data| then None else Some(data[|data| - 8 - length..|data| - 8])
  }

  function ReadFile(data: Bytes): Table {
    var footer := FooterOf(data);
    if footer.None? || |footer.value| < 12 || FromLittleEndian(footer.value[..4]) != 1 then NoTable
    else
      var metas := ReadMetas(FromLittleEndian(footer.value[8..12]), footer.value[12..]);
      if metas.NoListing? then NoTable
      else
        var cols := ReadColumns(data, metas.items);
        if cols.None? then NoTable else Table(FromLittleEndian(footer.value[4..8]), cols.value)
  }

  // A single record stands for itself; several, or none, make an array.
  function TreeOf(rows: nat, cols: seq<Column>): Node {
    if rows == 1 then MapNode([], FieldsAt(cols, 0, TypeOfCode))
    else
      var empty := NewNode(TypeArray, Ascii("Root"), NoValue);
      empty.(elementType := TypeMap, children := RowsFrom(cols, rows, TypeOfCode))
  }

  function Parsed(data: Bytes): Option<Node> {
    var t := ReadFile(data);
    if t.NoTable? then None else Some(TreeOf(t.rows, t.columns))
  }
}
