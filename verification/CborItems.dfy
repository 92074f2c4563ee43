/** The data items of RFC 8949 section 3 that the codec supports, their shortest
    serialisation, and a reference decoder that knows nothing about limits. */
module CborItems {
  import opened ByteStrings
  import opened Utf8

  datatype Entry = Entry(key: GoBytes, value: Item)

  datatype Item =
    | Unsigned(value: uint64)
    | Negative(value: uint64)  // stands for -1 - value
    | ByteString(s: GoBytes)
    | TextString(s: GoBytes)
    | List(items: seq<Item>)
    | Dict(entries: seq<Entry>)
    | Boolean(b: bool)
    | Nothing
    | Half(bits16: uint16)
    | Single(bits32: uint32)
    | Double(bits: uint64)

  // ---------- size measures ----------

  // What an item costs against the item budget: map keys count too.
  function ItemCount(item: Item): (n: nat)
    ensures n >= 1
    decreases item
  {
    match item
    case List(items) => 1 + CountAll(items)
    case Dict(entries) => 1 + CountEntries(entries)
    case _ => 1
  }

  function CountAll(items: seq<Item>): (n: nat)
    ensures n >= |items|
    decreases items
  {
    if items == [] then 0 else ItemCount(items[0]) + CountAll(items[1..])
  }

  function CountEntries(entries: seq<Entry>): (n: nat)
    ensures n >= 2 * |entries|
    decreases entries
  {
    if entries == [] then 0 else 1 + ItemCount(entries[0].value) + CountEntries(entries[1..])
  }

  function Max(a: nat, b: nat): nat {
    if a < b then b else a
  }

  function Depth(item: Item): nat
    decreases item
  {
    match item
    case List(items) => DepthAll(items)
    case Dict(entries) => DepthEntries(entries)
    case _ => 0
  }

  // One more than the depth of the deepest member, 0 for none.
  function DepthAll(items: seq<Item>): nat
    decreases items
  {
    if items == [] then 0 else Max(1 + Depth(items[0]), DepthAll(items[1..]))
  }

  function DepthEntries(entries: seq<Entry>): nat
    decreases entries
  {
    if entries == [] then 0 else Max(1 + Depth(entries[0].value), DepthEntries(entries[1..]))
  }

  // ---------- serialisation with shortest heads ----------

  function Head(major: nat, value: uint64): (b: Bytes)
    requires major < 8
    ensures 1 <= |b| <= 9
  {
    if value < 24 then [major * 32 + value]
    else if value <= 0xFF then [major * 32 + 24, value]
    else if value <= 0xFFFF then [major * 32 + 25] + BigEndian(2, value)
    else if value <= 0xFFFF_FFFF then [major * 32 + 26] + BigEndian(4, value)
    else [major * 32 + 27] + BigEndian(8, value)
  }

  // Go's uint64(len(x)); no slice is longer than a uint64 can say.
  function Count64(n: nat): (c: uint64)
    ensures n < TWO_64 ==> c == n
  {
    if n < 0x1_0000_0000_0000_0000 then n else 0
  }

  function Serialize(item: Item): (b: Bytes)
    ensures |b| >= 1
    decreases item
  {
    match item
    case Unsigned(v) => Head(0, v)
    case Negative(v) => Head(1, v)
    case ByteString(s) => Head(2, |s|) + s
    case TextString(s) => Head(3, |s|) + s
    case List(items) => Head(4, Count64(|items|)) + SerializeAll(items)
    case Dict(entries) => Head(5, Count64(|entries|)) + SerializeEntries(entries)
    case Boolean(b) => [if b then 0xF5 else 0xF4]
    case Nothing => [0xF6]
    case Half(bits) => [0xF9] + BigEndian(2, bits)
    case Single(bits) => [0xFA] + BigEndian(4, bits)
    case Double(bits) => [0xFB] + BigEndian(8, bits)
  }

  function SerializeAll(items: seq<Item>): Bytes
    decreases items
  {
    if items == [] then [] else Serialize(items[0]) + SerializeAll(items[1..])
  }

  function SerializeEntry(e: Entry): Bytes
    decreases e, 0
  {
    Head(3, |e.key|) + e.key + Serialize(e.value)
  }

  function SerializeEntries(entries: seq<Entry>): Bytes
    decreases entries
  {
    if entries == [] then [] else SerializeEntry(entries[0]) + SerializeEntries(entries[1..])
  }

  // ---------- reference decoder ----------

  datatype HeadView = NoHead | HeadView(major: nat, info: nat, value: uint64, rest: Bytes)

  // The number of argument bytes that follow an initial byte with this additional information.
  function ArgumentWidth(info: nat): (w: nat) {
    if info == 24 then 1 else if info == 25 then 2 else if info == 26 then 4 else if info == 27 then 8 else 0
  }

  function ReadHead(s: Bytes): (h: HeadView)
    ensures h.HeadView? ==> h.major < 8 && |h.rest| < |s|
    ensures h.HeadView? && h.info == 25 ==> h.value < 0x1_0000
    ensures h.HeadView? && h.info == 26 ==> h.value < 0x1_0000_0000
  {
    if s == [] then NoHead
    else
      var major, info := s[0] / 32, s[0] % 32;
      if info < 24 then HeadView(major, info, info, s[1..])
      else
        var w := ArgumentWidth(info);
        if w == 0 || |s| < 1 + w then NoHead
        else
          Pow256Widths();
          FromBigEndianBound(s[1..1 + w]);
          HeadView(major, info, FromBigEndian(s[1..1 + w]), s[1 + w..])
  }

  predicate DistinctKeys(entries: seq<Entry>) {
    forall i, j :: 0 <= i < j < |entries| ==> entries[i].key != entries[j].key
  }

  // Something decoded from the front of a byte string, and the bytes behind it.
  datatype ItemResult = NoItem | GotItem(item: Item, rest: Bytes)
  datatype ItemsResult = NoItems | GotItems(items: seq<Item>, rest: Bytes)
  datatype EntryResult = NoEntry | GotEntry(entry: Entry, rest: Bytes)
  datatype EntriesResult = NoEntries | GotEntries(entries: seq<Entry>, rest: Bytes)

  // An item that is not a container, given its head.
  function DecodeLeaf(h: HeadView): (r: ItemResult)
    requires h.HeadView?
    requires (h.info == 25 ==> h.value < 0x1_0000) && (h.info == 26 ==> h.value < 0x1_0000_0000)
    ensures r.GotItem? ==> |r.rest| <= |h.rest| && !r.item.List? && !r.item.Dict?
  {
    match h.major
    case 0 => GotItem(Unsigned(h.value), h.rest)
    case 1 => if h.value <= MAX_INT64 then GotItem(Negative(h.value), h.rest) else NoItem
    case 2 => if h.value <= |h.rest| then GotItem(ByteString(h.rest[..h.value]), h.rest[h.value..]) else NoItem
    case 3 =>
      if h.value <= |h.rest| && ValidUtf8(h.rest[..h.value])
      then GotItem(TextString(h.rest[..h.value]), h.rest[h.value..]) else NoItem
    case 7 =>
      if h.info == 20 || h.info == 21 then GotItem(Boolean(h.info == 21), h.rest)
      else if h.info == 22 then GotItem(Nothing, h.rest)
      else if h.info == 25 then GotItem(Half(h.value), h.rest)
      else if h.info == 26 then GotItem(Single(h.value), h.rest)
      else if h.info == 27 then GotItem(Double(h.value), h.rest)
      else NoItem
    case _ => NoItem
  }

  // Decodes one item from the front of s.
  function DecodeItem(s: Bytes): (r: ItemResult)
    ensures r.GotItem? ==> |r.rest| < |s|
    decreases |s|, 0
  {
    var h := ReadHead(s);
    if h.NoHead? then NoItem
    else if h.major == 4 then
      var list := DecodeItems(h.value, h.rest);
      if list.GotItems? then GotItem(List(list.items), list.rest) else NoItem
    else if h.major == 5 then
      var list := DecodeEntries(h.value, h.rest);
      if list.GotEntries? && DistinctKeys(list.entries) then GotItem(Dict(list.entries), list.rest) else NoItem
    else DecodeLeaf(h)
  }

  function DecodeItems(count: nat, s: Bytes): (r: ItemsResult)
    ensures r.GotItems? ==> |r.items| == count && |r.rest| + count <= |s|
    decreases |s|, 1
  {
    if count == 0 then GotItems([], s)
    else
      var first := DecodeItem(s);
      if first.NoItem? then NoItems
      else
        var more := DecodeItems(count - 1, first.rest);
        if more.NoItems? then NoItems else GotItems([first.item] + more.items, more.rest)
  }

  // A text key and its value.
  function DecodeEntry(s: Bytes): (r: EntryResult)
    ensures r.GotEntry? ==> |r.rest| + 2 <= |s|
    decreases |s|, 1
  {
    var key := DecodeItem(s);
    if key.NoItem? || !key.item.TextString? then NoEntry
    else
      var value := DecodeItem(key.rest);
      if value.NoItem? then NoEntry else GotEntry(Entry(key.item.s, value.item), value.rest)
  }

  function DecodeEntries(count: nat, s: Bytes): (r: EntriesResult)
    ensures r.GotEntries? ==> |r.entries| == count && |r.rest| + 2 * count <= |s|
    decreases |s|, 2
  {
    if count == 0 then GotEntries([], s)
    else
      var first := DecodeEntry(s);
      if first.NoEntry? then NoEntries
      else
        var more := DecodeEntries(count - 1, first.rest);
        if more.NoEntries? then NoEntries else GotEntries([first.entry] + more.entries, more.rest)
  }
}
