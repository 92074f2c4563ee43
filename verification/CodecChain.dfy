/** Chains of CBOR and MessagePack hops: what a tree means, and that any chain keeps it. */
module CodecChain {
  import opened ByteStrings
  import opened Utf8
  import opened Uir
  import opened KeyOrder
  import opened Floats
  import opened CborItems
  import opened CborFormat
  import opened CborNodes
  import opened CborTheorems
  import MP = MsgPackNodes

  // ---------- what a tree means ----------

  // Mathematical integers, doubles, sequences and key-to-value maps.
  datatype Meaning =
    | Void
    | Truth(b: bool)
    | Number(i: int)
    | Text(s: Bytes)
    | Binary(s: Bytes)
    | Real(bits: uint64)
    | Sequence(elements: seq<Meaning>)
    | Mapping(fields: map<Bytes, Meaning>)

  function MeaningOf(n: Node): Meaning
    decreases n, 0
  {
    if n.NilNode? || n.typ == TypeNull then Void
    else if n.typ == TypeArray then Sequence(ElementMeanings(n.children))
    else if n.typ == TypeMap then Mapping(FieldMeanings(n.children))
    else ValueMeaning(n.value)
  }

  function ElementMeanings(nodes: seq<Node>): seq<Meaning>
    decreases nodes, 1
  {
    if nodes == [] then [] else [MeaningOf(nodes[0])] + ElementMeanings(nodes[1..])
  }

  function FieldMeanings(nodes: seq<Node>): map<Bytes, Meaning>
    decreases nodes, 1
  {
    if nodes == [] then map[] else FieldMeanings(nodes[1..])[KeyOf(nodes[0]) := MeaningOf(nodes[0])]
  }

  function ValueMeaning(v: Value): Meaning {
    match v
    case Bool(b) => Truth(b)
    case Str(s) => Text(s)
    case Blob(s) => Binary(s)
    case Int(i) => Number(i)
    case Int32(i) => Number(i)
    case Int64(i) => Number(i)
    case Uint32(u) => Number(u)
    case Uint64(u) => Number(u)
    case Float32(bits) => Real(SingleToDouble(bits))
    case Float64(bits) => Real(bits)
    case _ => Void
  }

  // The size of a tree as the CBOR budget counts it, and its depth.
  function NodeCount(n: Node): (c: nat)
    ensures c >= 1
    decreases n, 0
  {
    if n.NilNode? then 1
    else if n.typ == TypeArray then 1 + ElementCount(n.children)
    else if n.typ == TypeMap then 1 + FieldCount(n.children)
    else 1
  }

  function ElementCount(nodes: seq<Node>): (c: nat)
    ensures c >= |nodes|
    decreases nodes, 1
  {
    if nodes == [] then 0 else NodeCount(nodes[0]) + ElementCount(nodes[1..])
  }

  function FieldCount(nodes: seq<Node>): (c: nat)
    ensures c >= |nodes|
    decreases nodes, 1
  {
    if nodes == [] then 0 else 1 + NodeCount(nodes[0]) + FieldCount(nodes[1..])
  }

  function NodeDepth(n: Node): nat
    decreases n, 0
  {
    if n.Node? && (n.typ == TypeArray || n.typ == TypeMap) then DepthBelow(n.children) else 0
  }

  function DepthBelow(nodes: seq<Node>): nat
    decreases nodes, 1
  {
    if nodes == [] then 0 else Max(1 + NodeDepth(nodes[0]), DepthBelow(nodes[1..]))
  }

  // Trees whose values have the type their tag says, with distinct text keys.
  predicate Plain(n: Node)
    decreases n, 0
  {
    && n.Node? && n.presence == (if n.typ == TypeNull then Uir.Null else Present)
    && match n.typ
       case TypeNull => true
       case TypeBoolean => n.value.Bool?
       case TypeInt64 => n.value.Int64?
       case TypeUInt64 => n.value.Uint64?
       case TypeFloat64 => n.value.Float64?
       case TypeFloat32 => n.value.Float32?
       case TypeBytes => n.value.Blob?
       case TypeString => n.value.Str? && ValidUtf8(n.value.s)
       case TypeArray => AllPlain(n.children)
       case TypeMap => PlainMembers(n.children)
       case _ => false
  }

  predicate AllPlain(nodes: seq<Node>)
    decreases nodes, 1
  {
    forall i | 0 <= i < |nodes| :: Plain(nodes[i])
  }

  predicate PlainMembers(nodes: seq<Node>)
    decreases nodes, 2
  {
    && AllPlain(nodes)
    && (forall i | 0 <= i < |nodes| :: ValidUtf8(KeyOf(nodes[i])))
    && (forall i, j | 0 <= i < j < |nodes| :: KeyOf(nodes[i]) != KeyOf(nodes[j]))
  }

  // Lengths that MessagePack can express.
  predicate Small(m: Meaning)
    decreases m
  {
    match m
    case Text(s) => |s| < TWO_32
    case Binary(s) => |s| < TWO_32
    case Sequence(elements) => forall e | e in elements :: Small(e)
    case Mapping(fields) => forall k | k in fields :: |k| < TWO_32 && Small(fields[k])
    case _ => true
  }

  // ---------- an item means what its node means ----------

  function ItemMeaning(item: Item): Meaning
    decreases item, 0
  {
    match item
    case List(items) => Sequence(ItemMeanings(items))
    case Dict(entries) => Mapping(EntryMeanings(entries))
    case _ => ValueMeaning(LeafValue(item))
  }

  function ItemMeanings(items: seq<Item>): seq<Meaning>
    decreases items, 1
  {
    if items == [] then [] else [ItemMeaning(items[0])] + ItemMeanings(items[1..])
  }

  function EntryMeanings(entries: seq<Entry>): map<Bytes, Meaning>
    decreases entries, 1
  {
    if entries == [] then map[] else EntryMeanings(entries[1..])[entries[0].key := ItemMeaning(entries[0].value)]
  }

  // A node carries an item: it means, counts and nests the same.
  ghost predicate Carries(n: Node, item: Item) {
    MeaningOf(n) == ItemMeaning(item) && NodeCount(n) == ItemCount(item) && NodeDepth(n) == Depth(item)
  }

  // ---------- what the CBOR reader returns ----------

  lemma {:induction false} DecodedNodeIsPlain(item: Item, key: GoBytes)
    requires WellFormed(item)
    ensures Plain(NodeOf(item, key)) && Carries(NodeOf(item, key), item)
    decreases item, 1
  {
    match item {
      case List(items) => DecodedElementsArePlain(items, 0, ElementNodes(items, 0));
      case Dict(entries) =>
        DecodedFieldsArePlain(entries, FieldNodes(entries));
        DecodedKeys(entries, FieldNodes(entries));
      case _ => DecodedLeafIsPlain(item, key);
    }
  }

  lemma DecodedLeafIsPlain(item: Item, key: GoBytes)
    requires WellFormed(item) && !item.List? && !item.Dict?
    ensures Plain(LeafNode(item, key)) && Carries(LeafNode(item, key), item)
  {}

  lemma DecodedKeys(entries: seq<Entry>, nodes: seq<Node>)
    requires DistinctKeys(entries) && nodes == FieldNodes(entries) && AllPlain(nodes)
    requires forall e | e in entries :: ValidUtf8(e.key)
    ensures PlainMembers(nodes)
  {
    forall i | 0 <= i < |nodes| ensures ValidUtf8(KeyOf(nodes[i])) {
      assert entries[i] in entries;
    }
  }

  lemma {:induction false} DecodedElementsArePlain(items: seq<Item>, from: nat, nodes: seq<Node>)
    requires nodes == ElementNodes(items, from) && forall i | i in items :: WellFormed(i)
    ensures AllPlain(nodes) && ElementMeanings(nodes) == ItemMeanings(items)
    ensures ElementCount(nodes) == CountAll(items) && DepthBelow(nodes) == DepthAll(items)
    decreases items, 0
  {
    if items != [] {
      assert nodes[1..] == ElementNodes(items[1..], from + 1);
      DecodedNodeIsPlain(items[0], IndexKey(from));
      DecodedElementsArePlain(items[1..], from + 1, nodes[1..]);
    }
  }

  lemma {:induction false} DecodedFieldsArePlain(entries: seq<Entry>, nodes: seq<Node>)
    requires nodes == FieldNodes(entries) && forall e | e in entries :: WellFormed(e.value)
    ensures AllPlain(nodes) && FieldMeanings(nodes) == EntryMeanings(entries)
    ensures FieldCount(nodes) == CountEntries(entries) && DepthBelow(nodes) == DepthEntries(entries)
    decreases entries, 0
  {
    if entries != [] {
      assert nodes[1..] == FieldNodes(entries[1..]);
      DecodedNodeIsPlain(entries[0].value, entries[0].key);
      DecodedFieldsArePlain(entries[1..], nodes[1..]);
    }
  }

  // ---------- what the CBOR writer emits ----------

  lemma {:induction false} PlainEncodes(n: Node)
    requires Plain(n)
    ensures Encodable(n) && Carries(n, ItemOf(n))
    decreases Size(n), 1
  {
    if n.typ == TypeArray {
      PlainElementsEncode(n.children, ItemsOf(n.children));
      ArrayCarries(n);
    } else if n.typ == TypeMap {
      PlainMapEncodes(n, SortByKey(n.children));
    } else {
      LeafCarries(n);
    }
  }

  lemma {:induction false} PlainMapEncodes(n: Node, sorted: seq<Node>)
    requires Plain(n) && n.typ == TypeMap && sorted == SortByKey(n.children)
    ensures Encodable(n) && Carries(n, ItemOf(n))
    decreases Size(n), 0
  {
    SortSize(n.children);
    StillPlain(n.children, sorted);
    PlainFieldsEncode(sorted, EntriesOf(sorted));
    MapEncodes(n, sorted);
    SortKeepsMeaning(n.children, sorted);
    MapCarries(n, ItemOf(n), EntriesOf(sorted));
  }

  lemma StillPlain(nodes: seq<Node>, sorted: seq<Node>)
    requires PlainMembers(nodes) && sorted == SortByKey(nodes)
    ensures forall i | 0 <= i < |sorted| :: Plain(sorted[i]) && ValidUtf8(KeyOf(sorted[i]))
  {
    SortedMembers(nodes, sorted);
    forall i | 0 <= i < |sorted| ensures Plain(sorted[i]) && ValidUtf8(KeyOf(sorted[i])) {
      var j :| 0 <= j < |nodes| && nodes[j] == sorted[i];
    }
  }

  lemma PlainArePresent(nodes: seq<Node>)
    requires AllPlain(nodes)
    ensures NilNode !in nodes && PresentFields(nodes) == nodes
  {
    forall i | 0 <= i < |nodes| ensures nodes[i].Node? && nodes[i].presence != Missing {
      assert Plain(nodes[i]);
    }
    AllPresent(nodes);
  }

  lemma LeafCarries(n: Node)
    requires Plain(n) && n.typ != TypeArray && n.typ != TypeMap
    ensures Encodable(n) && Carries(n, ItemOf(n))
  {}

  lemma ArrayCarries(n: Node)
    requires Plain(n) && n.typ == TypeArray && AllEncodable(n.children)
    requires ElementMeanings(n.children) == ItemMeanings(ItemsOf(n.children))
    requires ElementCount(n.children) == CountAll(ItemsOf(n.children))
    requires DepthBelow(n.children) == DepthAll(ItemsOf(n.children))
    ensures Encodable(n) && Carries(n, ItemOf(n))
  {
    ArrayEncodes(n);
  }

  lemma {:induction false} PlainElementsEncode(nodes: seq<Node>, items: seq<Item>)
    requires AllPlain(nodes) && items == ItemsOf(nodes)
    ensures AllEncodable(nodes) && ElementMeanings(nodes) == ItemMeanings(items)
    ensures ElementCount(nodes) == CountAll(items) && DepthBelow(nodes) == DepthAll(items)
    decreases SizeAll(nodes), 2
  {
    if nodes != [] {
      assert items[0] == ItemOf(nodes[0]) && items[1..] == ItemsOf(nodes[1..]);
      PlainEncodes(nodes[0]);
      PlainElementsEncode(nodes[1..], items[1..]);
    }
  }

  lemma {:induction false} PlainFieldsEncode(fields: seq<Node>, entries: seq<Entry>)
    requires forall i | 0 <= i < |fields| :: Plain(fields[i]) && ValidUtf8(KeyOf(fields[i]))
    requires entries == EntriesOf(fields)
    ensures FieldsEncodable(fields) && FieldMeanings(fields) == EntryMeanings(entries)
    ensures FieldCount(fields) == CountEntries(entries) && DepthBelow(fields) == DepthEntries(entries)
    decreases SizeAll(fields), 2
  {
    if fields != [] {
      assert entries[0] == Entry(KeyOf(fields[0]), ItemOf(fields[0])) && entries[1..] == EntriesOf(fields[1..]);
      PlainEncodes(fields[0]);
      PlainFieldsEncode(fields[1..], entries[1..]);
    }
  }

  lemma MapEncodes(n: Node, sorted: seq<Node>)
    requires n.Node? && n.typ == TypeMap && n.presence == Present && PlainMembers(n.children)
    requires sorted == SortByKey(n.children) && FieldsEncodable(sorted)
    ensures Encodable(n) && ItemOf(n) == Dict(EntriesOf(sorted))
  {
    PlainArePresent(n.children);
    RecordEncodes(n);
  }

  lemma MapCarries(n: Node, item: Item, entries: seq<Entry>)
    requires n.Node? && n.typ == TypeMap && item == Dict(entries)
    requires FieldMeanings(n.children) == EntryMeanings(entries)
    requires FieldCount(n.children) == CountEntries(entries) && DepthBelow(n.children) == DepthEntries(entries)
    ensures Carries(n, item)
  {}

  // ---------- the order of fields does not matter ----------

  // `nodes` mean, count and nest what `first` in front of `rest` does.
  ghost predicate LedBy(nodes: seq<Node>, first: Node, rest: seq<Node>) {
    && FieldMeanings(nodes) == FieldMeanings(rest)[KeyOf(first) := MeaningOf(first)]
    && FieldCount(nodes) == 1 + NodeCount(first) + FieldCount(rest)
    && DepthBelow(nodes) == Max(1 + NodeDepth(first), DepthBelow(rest))
  }

  lemma LedByHead(nodes: seq<Node>, first: Node, rest: seq<Node>)
    requires nodes != [] && first == nodes[0] && rest == nodes[1..]
    ensures LedBy(nodes, first, rest)
  {}

  lemma LedByEither(r: seq<Node>, tail: seq<Node>, sorted: seq<Node>, rest: seq<Node>, x: Node, y: Node)
    requires LedBy(r, y, tail) && LedBy(tail, x, rest) && LedBy(sorted, y, rest) && KeyOf(x) != KeyOf(y)
    ensures LedBy(r, x, sorted)
  {
    MaxSwaps(1 + NodeDepth(y), 1 + NodeDepth(x), DepthBelow(rest));
    FieldsSwap(FieldMeanings(rest), KeyOf(x), MeaningOf(x), KeyOf(y), MeaningOf(y));
  }

  lemma FieldsSwap(m: map<Bytes, Meaning>, k: Bytes, v: Meaning, k': Bytes, v': Meaning)
    requires k != k'
    ensures m[k := v][k' := v'] == m[k' := v'][k := v]
  {}

  lemma {:induction false} InsertKeepsMeaning(x: Node, sorted: seq<Node>, r: seq<Node>)
    requires r == Insert(x, sorted) && forall i | 0 <= i < |sorted| :: KeyOf(sorted[i]) != KeyOf(x)
    ensures LedBy(r, x, sorted)
  {
    LedByHead(r, r[0], r[1..]);
    if sorted == [] || !Less(KeyOf(sorted[0]), KeyOf(x)) {
      assert r[0] == x && r[1..] == sorted;
    } else {
      var y, rest, tail := sorted[0], sorted[1..], r[1..];
      assert r[0] == y && tail == Insert(x, rest);
      InsertKeepsMeaning(x, rest, tail);
      LedByHead(sorted, y, rest);
      LedByEither(r, tail, sorted, rest, x, y);
    }
  }

  lemma {:induction false} SortKeepsMeaning(nodes: seq<Node>, sorted: seq<Node>)
    requires DistinctNodeKeys(nodes) && sorted == SortByKey(nodes)
    ensures FieldMeanings(sorted) == FieldMeanings(nodes)
    ensures FieldCount(sorted) == FieldCount(nodes) && DepthBelow(sorted) == DepthBelow(nodes)
  {
    if nodes != [] {
      var rest, tail := nodes[1..], SortByKey(nodes[1..]);
      SortedMembers(rest, tail);
      SortKeepsMeaning(rest, tail);
      InsertKeepsMeaning(nodes[0], tail, sorted);
      LedByHead(nodes, nodes[0], rest);
    }
  }

  // ---------- the MessagePack hop ----------

  // A tree with the same meaning and the same size.
  ghost predicate Same(a: Node, b: Node) {
    MeaningOf(a) == MeaningOf(b) && NodeCount(a) == NodeCount(b) && NodeDepth(a) == NodeDepth(b)
  }

  lemma {:induction false} PlainPacks(n: Node, key: GoBytes)
    requires Plain(n)
    ensures MP.Packable(n) && Plain(MP.Normal(n, key)) && Same(MP.Normal(n, key), n) && KeyOf(MP.Normal(n, key)) == key
    decreases n, 1
  {
    if n.typ == TypeArray {
      PlainElementsPack(n.children, MP.NormalElements(n.children));
      ArrayPacks(n, key, n.children, MP.NormalElements(n.children));
    } else if n.typ == TypeMap {
      PlainFieldsPack(n.children, MP.NormalFields(n.children));
      PlainArePresent(n.children);
      MapPacks(n, key, n.children, MP.NormalFields(n.children));
    } else {
      LeafPacks(n, key);
    }
  }

  lemma ArrayPacks(n: Node, key: GoBytes, nodes: seq<Node>, r: seq<Node>)
    requires n.Node? && n.typ == TypeArray && n.children == nodes && MP.AllPackable(nodes)
    requires r == MP.NormalElements(nodes) && AllPlain(r) && ElementMeanings(r) == ElementMeanings(nodes)
    requires ElementCount(r) == ElementCount(nodes) && DepthBelow(r) == DepthBelow(nodes)
    ensures MP.Packable(n) && Plain(MP.Normal(n, key)) && Same(MP.Normal(n, key), n) && KeyOf(MP.Normal(n, key)) == key
  {}

  lemma MapPacks(n: Node, key: GoBytes, nodes: seq<Node>, r: seq<Node>)
    requires n.Node? && n.typ == TypeMap && n.children == nodes && MP.AllPackable(nodes) && NilNode !in nodes
    requires r == MP.NormalFields(nodes) && PlainMembers(r) && FieldMeanings(r) == FieldMeanings(nodes)
    requires FieldCount(r) == FieldCount(nodes) && DepthBelow(r) == DepthBelow(nodes)
    ensures MP.Packable(n) && Plain(MP.Normal(n, key)) && Same(MP.Normal(n, key), n) && KeyOf(MP.Normal(n, key)) == key
  {}

  lemma LeafPacks(n: Node, key: GoBytes)
    requires Plain(n) && n.typ != TypeArray && n.typ != TypeMap
    ensures MP.Packable(n) && Plain(MP.Normal(n, key)) && Same(MP.Normal(n, key), n) && KeyOf(MP.Normal(n, key)) == key
  {}

  lemma {:induction false} PlainElementsPack(nodes: seq<Node>, r: seq<Node>)
    requires AllPlain(nodes) && r == MP.NormalElements(nodes)
    ensures MP.AllPackable(nodes) && AllPlain(r) && ElementMeanings(r) == ElementMeanings(nodes)
    ensures ElementCount(r) == ElementCount(nodes) && DepthBelow(r) == DepthBelow(nodes)
    decreases nodes, 0
  {
    if nodes != [] {
      assert r[0] == MP.Normal(nodes[0], []) && r[1..] == MP.NormalElements(nodes[1..]);
      PlainPacks(nodes[0], []);
      PlainElementsPack(nodes[1..], r[1..]);
    }
  }

  lemma {:induction false} PlainFieldsPack(nodes: seq<Node>, r: seq<Node>)
    requires AllPlain(nodes) && r == MP.NormalFields(nodes)
    ensures MP.AllPackable(nodes) && AllPlain(r) && FieldMeanings(r) == FieldMeanings(nodes)
    ensures FieldCount(r) == FieldCount(nodes) && DepthBelow(r) == DepthBelow(nodes)
    ensures forall i | 0 <= i < |nodes| :: KeyOf(r[i]) == KeyOf(nodes[i])
    decreases nodes, 0
  {
    if nodes != [] {
      assert r[0] == MP.Normal(nodes[0], KeyOf(nodes[0])) && r[1..] == MP.NormalFields(nodes[1..]);
      PlainPacks(nodes[0], KeyOf(nodes[0]));
      PlainFieldsPack(nodes[1..], r[1..]);
    }
  }

  // ---------- lengths ----------

  lemma {:induction false} SmallFits(n: Node)
    requires Plain(n) && Small(MeaningOf(n)) && NodeCount(n) < TWO_32
    ensures MP.LengthsFit(n)
    decreases n, 1
  {
    if n.typ == TypeArray {
      SmallElementsFit(n.children, ElementMeanings(n.children));
    } else if n.typ == TypeMap {
      SmallFieldsFit(n.children, FieldMeanings(n.children));
    }
  }

  lemma {:induction false} SmallElementsFit(nodes: seq<Node>, meanings: seq<Meaning>)
    requires AllPlain(nodes) && meanings == ElementMeanings(nodes) && ElementCount(nodes) < TWO_32
    requires forall m | m in meanings :: Small(m)
    ensures MP.AllFit(nodes)
    decreases nodes, 0
  {
    if nodes != [] {
      assert meanings[0] == MeaningOf(nodes[0]) && meanings[1..] == ElementMeanings(nodes[1..]);
      SmallFits(nodes[0]);
      SmallElementsFit(nodes[1..], meanings[1..]);
    }
  }

  lemma {:induction false} SmallFieldsFit(nodes: seq<Node>, meanings: map<Bytes, Meaning>)
    requires PlainMembers(nodes) && meanings == FieldMeanings(nodes) && FieldCount(nodes) < TWO_32
    requires forall k | k in meanings :: |k| < TWO_32 && Small(meanings[k])
    ensures MP.AllFit(nodes) && MP.KeysFit(nodes)
    decreases nodes, 0
  {
    if nodes != [] {
      var rest := nodes[1..];
      RestMeanings(nodes, rest);
      assert KeyOf(nodes[0]) in meanings && meanings[KeyOf(nodes[0])] == MeaningOf(nodes[0]);
      SmallFits(nodes[0]);
      SmallFieldsFit(rest, FieldMeanings(rest));
    }
  }

  lemma RestMeanings(nodes: seq<Node>, rest: seq<Node>)
    requires nodes != [] && rest == nodes[1..] && DistinctNodeKeys(nodes)
    ensures forall k | k in FieldMeanings(rest) :: k in FieldMeanings(nodes) && FieldMeanings(nodes)[k] == FieldMeanings(rest)[k]
  {
    FieldKeys(rest);
  }

  lemma {:induction false} FieldKeys(nodes: seq<Node>)
    ensures forall k | k in FieldMeanings(nodes) :: exists i :: 0 <= i < |nodes| && KeyOf(nodes[i]) == k
  {
    if nodes != [] {
      FieldKeys(nodes[1..]);
      forall k | k in FieldMeanings(nodes) ensures exists i :: 0 <= i < |nodes| && KeyOf(nodes[i]) == k {
        if k == KeyOf(nodes[0]) {
          assert KeyOf(nodes[0]) == k;
        } else {
          assert k in FieldMeanings(nodes[1..]);
          var j :| 0 <= j < |nodes[1..]| && KeyOf(nodes[1..][j]) == k;
          assert KeyOf(nodes[j + 1]) == k;
        }
      }
    }
  }

  // ---------- chains ----------

  datatype Hop = ViaCbor | ViaMessagePack

  // Encode, then decode with the same codec.
  ghost function Take(render: MP.Render, n: Node, hop: Hop): Option<Node> {
    match hop
    case ViaCbor => if Encoded(n).Some? then Parsed(Encoded(n).value) else None
    case ViaMessagePack => if MP.Packable(n) then MP.ParseAll(render, MP.Pack(n)) else None
  }

  ghost function Travel(render: MP.Render, n: Node, hops: seq<Hop>): Option<Node>
    decreases hops
  {
    if hops == [] then Some(n)
    else
      var next := Take(render, n, hops[0]);
      if next.None? then None else Travel(render, next.value, hops[1..])
  }

  // A tree both codecs take.
  ghost predicate Portable(n: Node) {
    Plain(n) && Small(MeaningOf(n)) && NodeCount(n) <= CBOR_MAX_ITEMS && NodeDepth(n) <= CBOR_MAX_DEPTH
  }

  lemma RootedIsSame(n: Node)
    requires n.Node?
    ensures Same(Rooted(n), n) && (Plain(n) ==> Plain(Rooted(n)))
  {}

  lemma CborHop(n: Node)
    requires Portable(n)
    ensures Encoded(n).Some? && Parsed(Encoded(n).value).Some?
    ensures var n' := Parsed(Encoded(n).value).value; Portable(n') && Same(n', n)
  {
    var root := Ascii("Root");
    PlainEncodes(n);
    EncodeThenParse(n);
    EncodableIsWellFormed(n);
    NodeOfItemIsNormal(n, root);
    DecodedNodeIsPlain(ItemOf(n), root);
    RootedIsSame(NodeOf(ItemOf(n), root));
  }

  lemma MessagePackHop(render: MP.Render, n: Node)
    requires Portable(n)
    ensures MP.Packable(n) && MP.ParseAll(render, MP.Pack(n)).Some?
    ensures var n' := MP.ParseAll(render, MP.Pack(n)).value; Portable(n') && Same(n', n)
  {
    PlainPacks(n, []);
    SmallFits(n);
    MP.PackThenParse(render, n);
  }

  lemma {:induction false} PortableTravels(render: MP.Render, n: Node, hops: seq<Hop>)
    requires Portable(n)
    ensures Travel(render, n, hops).Some?
    ensures Portable(Travel(render, n, hops).value) && Same(Travel(render, n, hops).value, n)
    decreases hops
  {
    if hops != [] {
      if hops[0].ViaCbor? {
        CborHop(n);
      } else {
        MessagePackHop(render, n);
      }
      PortableTravels(render, Take(render, n, hops[0]).value, hops[1..]);
    }
  }

  lemma ParsedIsPlain(data: Bytes)
    requires Parsed(data).Some?
    ensures var n := Parsed(data).value;
            Plain(n) && NodeCount(n) <= CBOR_MAX_ITEMS && NodeDepth(n) <= CBOR_MAX_DEPTH
            && MeaningOf(n) == ItemMeaning(DecodeItem(data).item)
  {
    var item, root := DecodeItem(data).item, Ascii("Root");
    DecodedIsWellFormed(data);
    DecodedNodeIsPlain(item, root);
    RootedIsSame(NodeOf(item, root));
  }

  // Main result: start from any document the CBOR reader accepts with lengths below 2^32. Any chain of
  // CBOR and MessagePack hops succeeds, in any order, and the tree at the end means what the tree at
  // the start meant, with as many items and as deep.
  lemma ChainKeepsMeaning(render: MP.Render, data: Bytes, hops: seq<Hop>)
    requires Parsed(data).Some? && Small(MeaningOf(Parsed(data).value))
    ensures var start := Parsed(data).value;
            var end := Travel(render, start, hops);
            && end.Some? && MeaningOf(end.value) == MeaningOf(start)
            && NodeCount(end.value) == NodeCount(start) && NodeDepth(end.value) == NodeDepth(start)
  {
    ParsedIsPlain(data);
    PortableTravels(render, Parsed(data).value, hops);
  }

  // Documents below 4 GiB have such lengths.
  lemma ChainKeepsMeaningOfDocuments(render: MP.Render, data: Bytes, hops: seq<Hop>)
    requires Parsed(data).Some? && |data| < TWO_32
    ensures var start := Parsed(data).value;
            var end := Travel(render, start, hops);
            && end.Some? && MeaningOf(end.value) == MeaningOf(start)
            && NodeCount(end.value) == NodeCount(start) && NodeDepth(end.value) == NodeDepth(start)
  {
    ParsedIsPlain(data);
    DecodedIsSmall(data);
    ChainKeepsMeaning(render, data, hops);
  }

  lemma {:induction false} DecodedIsSmall(s: Bytes)
    requires DecodeItem(s).GotItem? && |s| < TWO_32
    ensures Small(ItemMeaning(DecodeItem(s).item))
    decreases |s|, 0
  {
    var h := ReadHead(s);
    if h.major == 4 {
      DecodedItemsAreSmall(h.value, h.rest);
    } else if h.major == 5 {
      DecodedEntriesAreSmall(h.value, h.rest);
    } else {
      LeafIsSmall(h);
    }
  }

  lemma LeafIsSmall(h: HeadView)
    requires h.HeadView? && (h.info == 25 ==> h.value < 0x1_0000) && (h.info == 26 ==> h.value < 0x1_0000_0000)
    requires DecodeLeaf(h).GotItem? && |h.rest| < TWO_32
    ensures Small(ItemMeaning(DecodeLeaf(h).item))
  {}

  lemma {:induction false} DecodedItemsAreSmall(count: nat, s: Bytes)
    requires DecodeItems(count, s).GotItems? && |s| < TWO_32
    ensures forall m | m in ItemMeanings(DecodeItems(count, s).items) :: Small(m)
    decreases |s|, 1
  {
    if count > 0 {
      var first := DecodeItem(s);
      DecodedIsSmall(s);
      DecodedItemsAreSmall(count - 1, first.rest);
      assert DecodeItems(count, s).items[1..] == DecodeItems(count - 1, first.rest).items;
    }
  }

  lemma {:induction false} DecodedEntriesAreSmall(count: nat, s: Bytes)
    requires DecodeEntries(count, s).GotEntries? && |s| < TWO_32
    ensures var m := EntryMeanings(DecodeEntries(count, s).entries);
            forall k | k in m :: |k| < TWO_32 && Small(m[k])
    decreases |s|, 2
  {
    if count > 0 {
      var first := DecodeEntry(s);
      DecodedEntryIsSmall(s);
      DecodedEntriesAreSmall(count - 1, first.rest);
      SmallInFront(first.entry, DecodeEntries(count - 1, first.rest).entries, DecodeEntries(count, s).entries);
    }
  }

  lemma SmallInFront(first: Entry, rest: seq<Entry>, entries: seq<Entry>)
    requires entries == [first] + rest && |first.key| < TWO_32 && Small(ItemMeaning(first.value))
    requires forall k | k in EntryMeanings(rest) :: |k| < TWO_32 && Small(EntryMeanings(rest)[k])
    ensures forall k | k in EntryMeanings(entries) :: |k| < TWO_32 && Small(EntryMeanings(entries)[k])
  {
    assert entries[1..] == rest;
  }

  lemma {:induction false} DecodedEntryIsSmall(s: Bytes)
    requires DecodeEntry(s).GotEntry? && |s| < TWO_32
    ensures var e := DecodeEntry(s).entry; |e.key| < TWO_32 && Small(ItemMeaning(e.value))
    decreases |s|, 1
  {
    var key := DecodeItem(s);
    DecodedIsSmall(s);
    assert ItemMeaning(key.item) == Text(key.item.s);
    DecodedIsSmall(key.rest);
  }
}
