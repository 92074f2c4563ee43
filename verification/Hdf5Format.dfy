/** The HDF5 subset: a superblock, a directory with absolute offsets, and the columns' payloads. */
module Hdf5Format {
  import opened ByteStrings
  import opened Columns
  import opened Conversions
  import opened Floats
  import opened PlainValues
  import opened Segments
  import opened Uir

  const SUPERBLOCK: nat := 56
  const SIGNATURE: Bytes := [0x89, 0x48, 0x44, 0x46, 0x0D, 0x0A, 0x1A, 0x0A]

  function CodeOf(t: UirType): byte {
    match t
    case TypeInt32 => 0 case TypeUInt32 => 0 case TypeSInt32 => 0 case TypeFixed32 => 0 case TypeSFixed32 => 0
    case TypeInt64 => 1 case TypeUInt64 => 1 case TypeSInt64 => 1 case TypeFixed64 => 1 case TypeSFixed64 => 1
    case TypeBoolean => 6
    case TypeFloat32 => 2
    case TypeFloat64 => 3
    case TypeBytes => 4
    case _ => 5
  }

  function KindOf(code: byte): Kind {
    match code
    case 0 => KInt32 case 1 => KInt64 case 2 => KFloat case 3 => KDouble case 4 => KBytes case 6 => KBool case _ => KText
  }

  // ---------- values ----------

  // What the writer makes of a value before it writes it as one of this kind.
  function Adapted(lib: Library, kind: Kind, v: Value): Value {
    match kind
    case KInt32 =>
      (match v case Int64(i) => Int32(ToInt32(Wrap(i))) case Bool(b) => Int32(if b then 1 else 0) case _ => v)
    case KInt64 => Int64(AsInt64(lib.floats, v))
    case KFloat => if v.Float64? then Float32(lib.floats.toFloat32(v.bits)) else v
    case KDouble => if v.Float32? then Float64(SingleToDouble(v.bits32)) else v
    case KText => if v.Str? then v else if v.NoValue? then Str([]) else Str(lib.sprint(v))
    case _ => v
  }

  // ---------- the file ----------

  function Payload(lib: Library, code: byte, values: seq<Value>): Bytes {
    EncodeAll(KindOf(code), AdaptedAll(HDF5_CODING, lib, KindOf(code), values))
  }

  // The payload of each column.
  function PayloadsOf(lib: Library, cols: seq<Column>): (parts: seq<Bytes>)
    ensures |parts| == |cols|
  {
    seq(|cols|, i requires 0 <= i < |cols| => Payload(lib, cols[i].code, cols[i].values))
  }

  function EntryFront(c: Column): Bytes {
    LittleEndian(2, |c.name|) + c.name + [c.code] + LittleEndian(8, |c.values|)
  }

  // The directory entries of columns with these payloads when the first payload starts at `offset`.
  function Entries(cols: seq<Column>, parts: seq<Bytes>, offset: nat): Bytes
    requires |parts| == |cols|
  {
    if cols == [] then []
    else EntryFront(cols[0]) + LittleEndian(8, offset) + Entries(cols[1..], parts[1..], offset + |parts[0]|)
  }

  function EntriesSize(cols: seq<Column>): nat {
    if cols == [] then 0 else |EntryFront(cols[0])| + 8 + EntriesSize(cols[1..])
  }

  // What stands in an entry until its offset is known.
  const NO_OFFSET: Bytes := [0, 0, 0, 0, 0, 0, 0, 0]

  // The entries before their offsets are known: zeros stand in for them.
  function Blank(cols: seq<Column>): (b: Bytes)
    ensures |b| == EntriesSize(cols)
  {
    if cols == [] then [] else EntryFront(cols[0]) + NO_OFFSET + Blank(cols[1..])
  }

  function BlankDirectory(cols: seq<Column>): Bytes {
    LittleEndian(4, |cols|) + Blank(cols)
  }

  // The directory with its offsets filled in.
  function Directory(cols: seq<Column>, parts: seq<Bytes>, offset: nat): Bytes
    requires |parts| == |cols|
  {
    LittleEndian(4, |cols|) + Entries(cols, parts, offset)
  }

  // Where the walk over the finished directory puts the next offset: behind the front of the entry at the
  // cursor, by the length of the name that is written in it. The length has 16 bits. Without the two bytes
  // or without room for the offset the source slices out of range.
  function NextSlot(dir: Bytes, cursor: nat): Option<nat> {
    if cursor + 2 > |dir| then None
    else
      var at := cursor + 2 + FromLittleEndian(dir[cursor..cursor + 2]) + 1 + 8;
      if at + 8 > |dir| then None else Some(at)
  }

  function PutAt(dir: Bytes, at: nat, v: nat): (r: Bytes)
    requires at + 8 <= |dir|
    ensures |r| == |dir|
  {
    dir[..at] + LittleEndian(8, v) + dir[at + 8..]
  }

  // The walk: one offset for each of the payloads.
  function Walk(dir: Bytes, cursor: nat, parts: seq<Bytes>, running: nat): (r: Option<Bytes>)
    ensures r.Some? ==> |r.value| == |dir|
    decreases parts
  {
    if parts == [] then Some(dir)
    else
      var at := NextSlot(dir, cursor);
      if at.None? then None
      else Walk(PutAt(dir, at.value, running), at.value + 8, parts[1..], running + |parts[0]|)
  }

  function DataOffset(cols: seq<Column>): nat {
    SUPERBLOCK + 4 + EntriesSize(cols)
  }

  function Superblock(end: nat): (b: Bytes)
    ensures |b| == SUPERBLOCK
  {
    SIGNATURE + [0, 0, 0, 0, 8, 8] + seq(26, i => 0) + LittleEndian(8, end) + LittleEndian(8, SUPERBLOCK)
  }

  // The file up to the first payload, with every offset in its place.
  function FileFront(cols: seq<Column>, parts: seq<Bytes>): Bytes
    requires |parts| == |cols|
  {
    Superblock(DataOffset(cols) + |Concat(parts)|) + Directory(cols, parts, DataOffset(cols))
  }

  function FileOf(lib: Library, cols: seq<Column>): Bytes {
    var parts := PayloadsOf(lib, cols);
    FileFront(cols, parts) + Concat(parts)
  }

  // What the writer makes of a blank directory and the payloads.
  function Patched(dir: Bytes, parts: seq<Bytes>): Option<Bytes> {
    var dataOff := SUPERBLOCK + |dir|;
    var patched := Walk(dir, 4, parts, dataOff);
    if patched.None? then None else Some(Superblock(dataOff + |Concat(parts)|) + patched.value + Concat(parts))
  }

  function Written(lib: Library, cols: seq<Column>): Option<Bytes> {
    Patched(BlankDirectory(cols), PayloadsOf(lib, cols))
  }

  // ---------- reading ----------

  datatype Meta = Meta(name: GoBytes, code: byte, count: nat, offset: nat)
  datatype MetaResult = NoMeta | GotMeta(meta: Meta, rest: Bytes)

  function ReadMeta(s: Bytes): (r: MetaResult)
    ensures r.GotMeta? ==> |r.rest| < |s|
  {
    if |s| < 2 then NoMeta
    else
      FromLittleEndianBound(s[..2]);
      Pow256Widths();
      var n, body := FromLittleEndian(s[..2]), s[2..];
      if |body| < n + 17 then NoMeta
      else
        GotMeta(Meta(body[..n], body[n], FromLittleEndian(body[n + 1..n + 9]), FromLittleEndian(body[n + 9..n + 17])),
                body[n + 17..])
  }

  function ReadMetas(count: nat, s: Bytes): (r: Listing<Meta>)
    ensures r.Listing? ==> |r.items| == count
  {
    if count == 0 then Listing([], s)
    else
      var m := ReadMeta(s);
      if m.NoMeta? then NoListing else Behind([m.meta], ReadMetas(count - 1, m.rest))
  }

  // The columns the directory describes; an offset behind the end makes the source slice out of range.
  function ReadColumns(data: Bytes, metas: seq<Meta>): (r: Option<seq<Column>>)
    ensures r.Some? ==> |r.value| == |metas|
  {
    if metas == [] then Some([])
    else
      var c := ReadColumn(data, metas[0]);
      if c.None? then None else Prefixed([c.value], ReadColumns(data, metas[1..]))
  }

  function ReadColumn(data: Bytes, m: Meta): Option<Column> {
    if m.offset > |data| then None
    else
      var v := ReadValues(KindOf(m.code), m.count, data[m.offset..]);
      if v.NoListing? then None else Some(Column(m.name, m.code, v.items))
  }

  function ReadFile(data: Bytes): Option<seq<Column>> {
    if |data| < SUPERBLOCK || data[..8] != SIGNATURE || data[8] != 0 then None
    else
      var dirOff := FromLittleEndian(data[48..56]);
      if dirOff >= |data| || |data[dirOff..]| < 4 then None
      else
        var dir := data[dirOff..];
        var metas := ReadMetas(FromLittleEndian(dir[..4]), dir[4..]);
        if metas.NoListing? then None else ReadColumns(data, metas.items)
  }

  // ---------- the tree of a file ----------

  function TypeOfCode(code: byte): UirType {
    match code
    case 0 => TypeInt32
    case 1 => TypeInt64
    case 2 => TypeFloat32
    case 3 => TypeFloat64
    case 4 => TypeBytes
    case 6 => TypeBoolean
    case _ => TypeString
  }

  const HDF5_CODING := Coding(CodeOf, TypeOfCode, KindOf, Adapted)

  // A single record stands for itself; several, or none, make an array.
  function TableOf(cols: seq<Column>): Node {
    var n := if cols == [] then 0 else |cols[0].values|;
    if n == 1 then MapNode(Ascii("Root"), FieldsAt(cols, 0, TypeOfCode))
    else
      var empty := NewNode(TypeArray, Ascii("Root"), NoValue);
      empty.(children := RowsFrom(cols, n, TypeOfCode))
  }

  function Parsed(data: Bytes): Option<Node> {
    var cols := ReadFile(data);
    if cols.None? then None else Some(TableOf(cols.value))
  }

  // Nil records and fields make the source panic.
  function Encoded(lib: Library, n: Node): Option<Bytes> {
    var rows := RowsOf(n);
    if NoNil(rows) then Written(lib, ColumnsOf(rows, CodeOf)) else None
  }
}
