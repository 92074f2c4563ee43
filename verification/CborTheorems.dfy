/** The main results about the CBOR codec, for every tree and every byte string. */
module CborTheorems {
  import opened ByteStrings
  import opened Utf8
  import opened Uir
  import opened KeyOrder
  import opened CborItems
  import opened CborFormat
  import opened CborNodes
  import opened Floats

  function Rooted(n: Node): Node
    requires n.Node?
  {
    SetAnnotation(n, Ascii("source_format"), Ascii("cbor"))
  }

  // ---------- encodable trees stand for well-formed items ----------

  lemma {:induction false} EncodableIsWellFormed(n: Node)
    requires Encodable(n) && ItemCount(ItemOf(n)) < TWO_64
    ensures WellFormed(ItemOf(n))
    decreases Size(n), 0
  {
    if EncodesAsNull(n) {
    } else if IsRecord(n) {
      SortedSize(n.children);
      FieldsAreWellFormed(SortedFields(n.children));
      SortAscends(PresentFields(n.children));
      AscendingKeys(SortedFields(n.children));
    } else if n.typ == TypeArray {
      ElementsAreWellFormed(n.children);
    }
  }

  lemma {:induction false} ElementsAreWellFormed(nodes: seq<Node>)
    requires AllEncodable(nodes) && CountAll(ItemsOf(nodes)) < TWO_64
    ensures forall i | i in ItemsOf(nodes) :: WellFormed(i)
    decreases SizeAll(nodes), 1
  {
    if nodes != [] {
      var items := ItemsOf(nodes);
      assert items[0] == ItemOf(nodes[0]) && items[1..] == ItemsOf(nodes[1..]);
      EncodableIsWellFormed(nodes[0]);
      ElementsAreWellFormed(nodes[1..]);
    }
  }

  lemma {:induction false} FieldsAreWellFormed(fields: seq<Node>)
    requires FieldsEncodable(fields) && CountEntries(EntriesOf(fields)) < TWO_64
    ensures forall e | e in EntriesOf(fields) :: ValidUtf8(e.key) && WellFormed(e.value)
    decreases SizeAll(fields), 1
  {
    if fields != [] {
      var entries := EntriesOf(fields);
      assert entries[0] == Entry(KeyOf(fields[0]), ItemOf(fields[0])) && entries[1..] == EntriesOf(fields[1..]);
      EncodableIsWellFormed(fields[0]);
      FieldsAreWellFormed(fields[1..]);
    }
  }

  lemma AscendingKeys(fields: seq<Node>)
    requires Ascending(fields)
    ensures DistinctKeys(EntriesOf(fields))
  {
    forall i, j | 0 <= i < j < |fields| ensures KeyOf(fields[i]) != KeyOf(fields[j]) {
      LessTotal(KeyOf(fields[i]), KeyOf(fields[j]));
    }
  }

  // ---------- encode, then parse ----------

  // Whatever the writer accepts, the reader accepts, and it returns the normal form of the tree.
  lemma EncodeThenParse(n: Node)
    requires Encoded(n).Some?
    ensures Parsed(Encoded(n).value) == Some(Rooted(Normal(n, Ascii("Root"))))
  {
    var item := ItemOf(n);
    EncodableIsWellFormed(n);
    SerializedDecodes(item, []);
    assert Serialize(item) + [] == Serialize(item);
    NodeOfItemIsNormal(n, Ascii("Root"));
  }

  // Different normal forms never share an encoding.
  lemma EncodingIsInjective(a: Node, b: Node)
    requires Encoded(a).Some? && Encoded(a) == Encoded(b)
    ensures Rooted(Normal(a, Ascii("Root"))) == Rooted(Normal(b, Ascii("Root")))
  {
    EncodeThenParse(a);
    EncodeThenParse(b);
  }

  // No accepted encoding of the same item is shorter than what the writer emits.
  lemma EncodingIsShortest(n: Node, data: Bytes)
    requires Encoded(n).Some? && DecodeItem(data) == GotItem(ItemOf(n), [])
    ensures |Encoded(n).value| <= |data|
  {
    SerializeIsShortest(data);
  }

  // ---------- prefix-freeness ----------

  // No proper prefix of an accepted document is accepted.
  lemma PrefixesAreRejected(data: Bytes, k: nat)
    requires Parsed(data).Some? && k < |data|
    ensures Parsed(data[..k]).None?
  {
    var front, back := data[..k], data[k..];
    assert data == front + back;
    if DecodeItem(front).GotItem? {
      DecodeExtends(front, back);
    }
  }

  // ---------- parse, then encode ----------

  // The node can be encoded, and costs as much as the item.
  ghost predicate Reencodes(n: Node, item: Item) {
    Encodable(n) && ItemCount(ItemOf(n)) == ItemCount(item) && Depth(ItemOf(n)) == Depth(item)
  }

  // The node of a well-formed item can be encoded again, at the same cost.
  lemma {:induction false} NodeOfReencodes(item: Item, key: GoBytes)
    requires WellFormed(item)
    ensures Reencodes(NodeOf(item, key), item)
    decreases item, 1
  {
    var n := NodeOf(item, key);
    match item {
      case List(items) =>
        ElementNodesAreEncodable(items, 0);
        ListReencodes(items, n, ElementNodes(items, 0), key);
      case Dict(entries) => DictReencodes(entries, FieldNodes(entries), n, key);
      case _ => LeafReencodes(item, n, key);
    }
  }

  // Half-precision numbers come back as doubles; every other scalar comes back as it was.
  function LeafAgain(item: Item): Item {
    if item.Half? then Double(HalfToDouble(item.bits16)) else item
  }

  lemma LeafComesBack(item: Item, n: Node, key: GoBytes)
    requires !item.List? && !item.Dict? && WellFormed(item) && n == LeafNode(item, key)
    ensures Encodable(n) && ItemOf(n) == LeafAgain(item)
  {
    match item
    case Unsigned(v) =>
    case Negative(v) =>
    case _ =>
  }

  lemma LeafReencodes(item: Item, n: Node, key: GoBytes)
    requires !item.List? && !item.Dict? && WellFormed(item) && n == LeafNode(item, key)
    ensures Reencodes(n, item)
  {
    LeafComesBack(item, n, key);
  }

  lemma ListReencodes(items: seq<Item>, n: Node, nodes: seq<Node>, key: GoBytes)
    requires n == ListNode(key, nodes) && AllEncodable(nodes)
    requires CountAll(ItemsOf(nodes)) == CountAll(items) && DepthAll(ItemsOf(nodes)) == DepthAll(items)
    ensures Reencodes(n, List(items))
  {
    ArrayEncodes(n);
    ListCosts(ItemsOf(nodes), items);
  }

  lemma ListCosts(a: seq<Item>, b: seq<Item>)
    requires CountAll(a) == CountAll(b) && DepthAll(a) == DepthAll(b)
    ensures ItemCount(List(a)) == ItemCount(List(b)) && Depth(List(a)) == Depth(List(b))
  {}

  lemma {:induction false} ElementNodesAreEncodable(items: seq<Item>, from: nat)
    requires forall i | i in items :: WellFormed(i)
    ensures AllEncodable(ElementNodes(items, from))
    ensures CountAll(ItemsOf(ElementNodes(items, from))) == CountAll(items)
    ensures DepthAll(ItemsOf(ElementNodes(items, from))) == DepthAll(items)
    decreases items, 0
  {
    if items != [] {
      var nodes := ElementNodes(items, from);
      NodeOfReencodes(items[0], IndexKey(from));
      ElementNodesAreEncodable(items[1..], from + 1);
      assert nodes[1..] == ElementNodes(items[1..], from + 1);
      assert ItemsOf(nodes)[1..] == ItemsOf(nodes[1..]);
    }
  }

  // The order of the fields does not change what they cost.
  lemma {:induction false} InsertCost(x: Node, sorted: seq<Node>, r: seq<Node>)
    requires r == Insert(x, sorted)
    ensures FieldsCost(r, x, sorted)
  {
    FieldsHead(r, r[0], r[1..]);
    if sorted == [] || !Less(KeyOf(sorted[0]), KeyOf(x)) {
      assert r[0] == x && r[1..] == sorted;
    } else {
      var s0, rest, tail := sorted[0], sorted[1..], r[1..];
      assert r[0] == s0 && tail == Insert(x, rest);
      InsertCost(x, rest, tail);
      FieldsHead(sorted, s0, rest);
      MaxSwaps(1 + Depth(ItemOf(x)), 1 + Depth(ItemOf(s0)), DepthEntries(EntriesOf(rest)));
    }
  }

  lemma MaxSwaps(a: nat, b: nat, c: nat)
    ensures Max(a, Max(b, c)) == Max(b, Max(a, c))
  {}

  // `fields` cost what `first` and `rest` cost together.
  ghost predicate FieldsCost(fields: seq<Node>, first: Node, rest: seq<Node>)
  {
    && CountEntries(EntriesOf(fields)) == 1 + ItemCount(ItemOf(first)) + CountEntries(EntriesOf(rest))
    && DepthEntries(EntriesOf(fields)) == Max(1 + Depth(ItemOf(first)), DepthEntries(EntriesOf(rest)))
  }

  lemma FieldsHead(fields: seq<Node>, first: Node, rest: seq<Node>)
    requires fields != [] && first == fields[0] && rest == fields[1..]
    ensures FieldsCost(fields, first, rest)
  {
    assert EntriesOf(fields)[1..] == EntriesOf(rest);
  }

  lemma SortedMembers(fields: seq<Node>, sorted: seq<Node>)
    requires sorted == SortByKey(fields)
    ensures forall i | 0 <= i < |sorted| :: sorted[i] in fields
  {
    assert forall i | 0 <= i < |sorted| :: sorted[i] in multiset(sorted);
  }

  lemma {:induction false} SortCost(fields: seq<Node>, sorted: seq<Node>)
    requires sorted == SortByKey(fields)
    ensures CountEntries(EntriesOf(sorted)) == CountEntries(EntriesOf(fields))
    ensures DepthEntries(EntriesOf(sorted)) == DepthEntries(EntriesOf(fields))
  {
    if fields != [] {
      var rest, tail := fields[1..], SortByKey(fields[1..]);
      SortedMembers(rest, tail);
      SortCost(rest, tail);
      InsertCost(fields[0], tail, sorted);
      FieldsHead(fields, fields[0], rest);
    }
  }

  lemma {:induction false} AllPresent(nodes: seq<Node>)
    requires forall i | 0 <= i < |nodes| :: nodes[i].Node? && nodes[i].presence != Missing
    ensures PresentFields(nodes) == nodes
  {
    if nodes != [] {
      AllPresent(nodes[1..]);
      assert nodes == [nodes[0]] + nodes[1..];
    }
  }

  ghost predicate WellFormedEntries(entries: seq<Entry>) {
    DistinctKeys(entries) && forall e | e in entries :: ValidUtf8(e.key) && WellFormed(e.value)
  }

  lemma {:induction false} DictReencodes(entries: seq<Entry>, fields: seq<Node>, n: Node, key: GoBytes)
    requires WellFormedEntries(entries) && fields == FieldNodes(entries) && n == RecordNode(key, fields)
    ensures Reencodes(n, Dict(entries))
    decreases entries, 3
  {
    var sorted := SortByKey(fields);
    FieldsReencode(entries, fields, sorted);
    RecordReencodes(n, key, fields, sorted);
    DictCosts(EntriesOf(sorted), entries);
  }

  lemma DictCosts(a: seq<Entry>, b: seq<Entry>)
    requires CountEntries(a) == CountEntries(b) && DepthEntries(a) == DepthEntries(b)
    ensures ItemCount(Dict(a)) == ItemCount(Dict(b)) && Depth(Dict(a)) == Depth(Dict(b))
  {}

  lemma {:induction false} FieldsReencode(entries: seq<Entry>, fields: seq<Node>, sorted: seq<Node>)
    requires WellFormedEntries(entries) && fields == FieldNodes(entries) && sorted == SortByKey(fields)
    ensures PlainFields(fields)
    ensures CountEntries(EntriesOf(sorted)) == CountEntries(entries)
    ensures DepthEntries(EntriesOf(sorted)) == DepthEntries(entries)
    decreases entries, 2
  {
    FieldNodesAreEncodable(entries, fields);
    SortCost(fields, sorted);
    FieldNodesAreFields(entries, fields);
  }

  // All fields can be written and will be, under distinct keys.
  ghost predicate PlainFields(fields: seq<Node>) {
    DistinctFields(fields) && FieldsEncodable(fields)
  }

  ghost predicate DistinctFields(fields: seq<Node>) {
    PresentFields(fields) == fields && NilNode !in fields && DistinctNodeKeys(fields)
  }

  lemma FieldNodesAreFields(entries: seq<Entry>, fields: seq<Node>)
    requires DistinctKeys(entries) && fields == FieldNodes(entries)
    ensures DistinctFields(fields)
  {
    NodesArePresent(entries);
    AllPresent(fields);
  }

  lemma RecordReencodes(n: Node, key: GoBytes, fields: seq<Node>, sorted: seq<Node>)
    requires n == RecordNode(key, fields) && sorted == SortByKey(fields)
    requires PlainFields(fields)
    ensures Encodable(n) && ItemOf(n) == Dict(EntriesOf(sorted))
  {
    SortedMembers(fields, sorted);
    StillEncodable(fields, sorted);
    RecordEncodes(n);
  }

  lemma StillEncodable(fields: seq<Node>, some: seq<Node>)
    requires FieldsEncodable(fields) && forall i | 0 <= i < |some| :: some[i] in fields
    ensures FieldsEncodable(some)
  {
    forall i | 0 <= i < |some| ensures ValidUtf8(KeyOf(some[i])) && Encodable(some[i]) {
      var j :| 0 <= j < |fields| && fields[j] == some[i];
    }
  }

  lemma {:induction false} NodesArePresent(entries: seq<Entry>)
    ensures forall i | 0 <= i < |entries| :: FieldNodes(entries)[i].presence != Missing
  {
    if entries != [] {
      NodesArePresent(entries[1..]);
    }
  }

  lemma {:induction false} FieldNodesAreEncodable(entries: seq<Entry>, fields: seq<Node>)
    requires forall e | e in entries :: ValidUtf8(e.key) && WellFormed(e.value)
    requires fields == FieldNodes(entries)
    ensures FieldsEncodable(fields)
    ensures CountEntries(EntriesOf(fields)) == CountEntries(entries)
    ensures DepthEntries(EntriesOf(fields)) == DepthEntries(entries)
    decreases entries, 1
  {
    if entries != [] {
      var first, rest := fields[0], fields[1..];
      NodeOfReencodes(entries[0].value, entries[0].key);
      assert first == NodeOf(entries[0].value, entries[0].key) && rest == FieldNodes(entries[1..]);
      FieldNodesAreEncodable(entries[1..], rest);
      FieldInFront(entries, fields, first, rest);
    }
  }

  lemma {:induction false} FieldInFront(entries: seq<Entry>, fields: seq<Node>, first: Node, rest: seq<Node>)
    requires entries != [] && fields != [] && first == fields[0] && rest == fields[1..]
    requires first.Node? && first.key == entries[0].key && ValidUtf8(first.key) && Reencodes(first, entries[0].value)
    requires FieldsEncodable(rest)
    requires CountEntries(EntriesOf(rest)) == CountEntries(entries[1..])
    requires DepthEntries(EntriesOf(rest)) == DepthEntries(entries[1..])
    ensures FieldsEncodable(fields)
    ensures CountEntries(EntriesOf(fields)) == CountEntries(entries)
    ensures DepthEntries(EntriesOf(fields)) == DepthEntries(entries)
  {
    FieldsHead(fields, first, rest);
  }
}
