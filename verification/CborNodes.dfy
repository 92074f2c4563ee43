/** The two directions between UIR nodes and CBOR items, the limits of the codec, and
    the normal form of a tree. These are the specifications the encoder and the parser meet. */
module CborNodes {
  import opened ByteStrings
  import opened Utf8
  import opened Uir
  import opened KeyOrder
  import opened CborItems
  import opened Floats

  const CBOR_MAX_DEPTH: nat := 64
  const CBOR_MAX_ITEMS: nat := 100000

  // The item fits what is left of the budget, seen from a given nesting depth.
  predicate Fits(item: Item, left: int, depth: nat) {
    ItemCount(item) <= left && depth + Depth(item) <= CBOR_MAX_DEPTH
  }

  // ---------- from nodes to items ----------

  predicate EncodesAsNull(n: Node) {
    n.NilNode? || n.typ == TypeNull || n.presence == Uir.Null || n.presence == Missing
  }

  predicate IsRecord(n: Node) {
    n.Node? && (n.typ == TypeMap || n.typ == TypeDefinition)
  }

  // The children of a record that are written: neither nil nor missing.
  function PresentFields(children: seq<Node>): (r: seq<Node>)
    ensures forall f :: f in r <==> f in children && f.Node? && f.presence != Missing
    ensures |r| <= |children|
  {
    if children == [] then []
    else if children[0].Node? && children[0].presence != Missing then [children[0]] + PresentFields(children[1..])
    else PresentFields(children[1..])
  }

  function SortedFields(children: seq<Node>): (r: seq<Node>)
  {
    SortByKey(PresentFields(children))
  }

  lemma {:induction false} PresentSize(children: seq<Node>)
    ensures SizeAll(PresentFields(children)) <= SizeAll(children)
  {
    if children != [] {
      PresentSize(children[1..]);
    }
  }

  lemma SortedSize(children: seq<Node>)
    ensures SizeAll(SortedFields(children)) <= SizeAll(children)
  {
    PresentSize(children);
    SortSize(PresentFields(children));
  }

  function IntItem(i: int64): Item {
    if i < 0 then Negative(-1 - i) else Unsigned(i)
  }

  predicate ScalarEncodable(v: Value) {
    !v.Opaque? && (v.Str? ==> ValidUtf8(v.s))
  }

  function ScalarItem(v: Value): Item {
    match v
    case NoValue => Nothing
    case Bool(b) => Boolean(b)
    case Str(s) => TextString(s)
    case Blob(s) => ByteString(s)
    case Int(i) => IntItem(i)
    case Int32(i) => IntItem(i)
    case Int64(i) => IntItem(i)
    case Uint32(u) => Unsigned(u)
    case Uint64(u) => Unsigned(u)
    case Float32(bits) => Single(bits)
    case Float64(bits) => Double(bits)
    case Opaque(_) => Nothing
  }

  // The trees that have a CBOR form, limits aside.
  ghost predicate Encodable(n: Node)
    decreases Size(n), 0
  {
    EncodesAsNull(n) ||
    if IsRecord(n) then
      && NilNode !in n.children && DistinctNodeKeys(PresentFields(n.children))
      && (SortedSize(n.children); FieldsEncodable(SortedFields(n.children)))
    else if n.typ == TypeArray then AllEncodable(n.children)
    else ScalarEncodable(n.value)
  }

  ghost predicate AllEncodable(nodes: seq<Node>)
    decreases SizeAll(nodes), 1
  {
    forall i | 0 <= i < |nodes| :: (SizeOfElement(nodes, i); Encodable(nodes[i]))
  }

  ghost predicate FieldsEncodable(fields: seq<Node>)
    decreases SizeAll(fields), 1
  {
    forall i | 0 <= i < |fields| :: ValidUtf8(KeyOf(fields[i])) && (SizeOfElement(fields, i); Encodable(fields[i]))
  }

  // The item an encodable node stands for.
  ghost function ItemOf(n: Node): (item: Item)
    decreases Size(n), 0
  {
    if EncodesAsNull(n) then Nothing
    else if IsRecord(n) then SortedSize(n.children); Dict(EntriesOf(SortedFields(n.children)))
    else if n.typ == TypeArray then List(ItemsOf(n.children))
    else ScalarItem(n.value)
  }

  ghost function ItemsOf(nodes: seq<Node>): (items: seq<Item>)
    ensures |items| == |nodes|
    decreases SizeAll(nodes), 1
  {
    if nodes == [] then [] else [ItemOf(nodes[0])] + ItemsOf(nodes[1..])
  }

  ghost function EntriesOf(fields: seq<Node>): (entries: seq<Entry>)
    ensures |entries| == |fields|
    ensures forall i | 0 <= i < |fields| :: entries[i].key == KeyOf(fields[i])
    decreases SizeAll(fields), 1
  {
    if fields == [] then [] else [Entry(KeyOf(fields[0]), ItemOf(fields[0]))] + EntriesOf(fields[1..])
  }

  // How a record and an array unfold.
  lemma RecordEncodes(n: Node)
    requires !EncodesAsNull(n) && IsRecord(n)
    ensures Encodable(n) <==> && NilNode !in n.children && DistinctNodeKeys(PresentFields(n.children))
                              && FieldsEncodable(SortedFields(n.children))
    ensures ItemOf(n) == Dict(EntriesOf(SortedFields(n.children)))
    ensures ItemCount(ItemOf(n)) == 1 + CountEntries(EntriesOf(SortedFields(n.children)))
    ensures Depth(ItemOf(n)) == DepthEntries(EntriesOf(SortedFields(n.children)))
  {}

  lemma ArrayEncodes(n: Node)
    requires !EncodesAsNull(n) && !IsRecord(n) && n.typ == TypeArray
    ensures Encodable(n) <==> AllEncodable(n.children)
    ensures ItemOf(n) == List(ItemsOf(n.children))
    ensures ItemCount(ItemOf(n)) == 1 + CountAll(ItemsOf(n.children)) && Depth(ItemOf(n)) == DepthAll(ItemsOf(n.children))
  {}

  // ---------- from items to nodes ----------

  function NodeOf(item: Item, key: GoBytes): (n: Node)
    ensures n.Node? && n.key == key
    decreases item, 0
  {
    match item
    case List(items) => ListNode(key, ElementNodes(items, 0))
    case Dict(entries) => RecordNode(key, FieldNodes(entries))
    case _ => LeafNode(item, key)
  }

  function LeafNode(item: Item, key: GoBytes): (n: Node)
    ensures n.Node? && n.key == key
  {
    NewNode(LeafType(item), key, LeafValue(item))
  }

  function LeafType(item: Item): UirType {
    match item
    case Unsigned(v) => if v <= MAX_INT64 then TypeInt64 else TypeUInt64
    case Negative(v) => if v <= MAX_INT64 then TypeInt64 else TypeUnknown
    case ByteString(_) => TypeBytes
    case TextString(_) => TypeString
    case Boolean(_) => TypeBoolean
    case Half(_) => TypeFloat64
    case Single(_) => TypeFloat32
    case Double(_) => TypeFloat64
    case _ => TypeNull
  }

  function LeafValue(item: Item): Value {
    match item
    case Unsigned(v) => if v <= MAX_INT64 then Int64(v) else Uint64(v)
    case Negative(v) => if v <= MAX_INT64 then Int64(-1 - v) else NoValue
    case ByteString(s) => Blob(s)
    case TextString(s) => Str(s)
    case Boolean(b) => Bool(b)
    case Half(bits) => Float64(HalfToDouble(bits))
    case Single(bits) => Float32(bits)
    case Double(bits) => Float64(bits)
    case _ => NoValue
  }

  function RecordNode(key: GoBytes, children: seq<Node>): (n: Node)
    ensures n.Node? && n.key == key && n.children == children && n.typ == TypeMap
  {
    var empty := NewNode(TypeMap, key, NoValue);
    empty.(children := children)
  }

  // An array node; its element type is that of its first element.
  function ListNode(key: GoBytes, children: seq<Node>): (n: Node)
    ensures n.Node? && n.key == key && n.children == children && n.typ == TypeArray
  {
    var empty := NewNode(TypeArray, key, NoValue);
    var n := empty.(children := children);
    if children != [] && children[0].Node? then n.(elementType := children[0].typ) else n
  }

  function ElementNodes(items: seq<Item>, from: nat): (r: seq<Node>)
    ensures |r| == |items|
    decreases items, 1
  {
    if items == [] then [] else [NodeOf(items[0], IndexKey(from))] + ElementNodes(items[1..], from + 1)
  }

  function FieldNodes(entries: seq<Entry>): (r: seq<Node>)
    ensures |r| == |entries|
    ensures forall i | 0 <= i < |r| :: r[i].Node? && r[i].key == entries[i].key
    decreases entries, 1
  {
    if entries == [] then [] else [NodeOf(entries[0].value, entries[0].key)] + FieldNodes(entries[1..])
  }

  // ---------- whole documents ----------

  ghost function Encoded(n: Node): Option<Bytes> {
    if Encodable(n) && Fits(ItemOf(n), CBOR_MAX_ITEMS, 0) then Some(Serialize(ItemOf(n))) else None
  }

  function Parsed(data: Bytes): Option<Node> {
    var d := DecodeItem(data);
    if d.GotItem? && d.rest == [] && Fits(d.item, CBOR_MAX_ITEMS, 0)
    then Some(SetAnnotation(NodeOf(d.item, Ascii("Root")), Ascii("source_format"), Ascii("cbor")))
    else None
  }

  // ---------- the normal form of a tree ----------

  function ScalarNode(v: Value, key: GoBytes): Node {
    match v
    case Bool(_) => NewNode(TypeBoolean, key, v)
    case Str(_) => NewNode(TypeString, key, v)
    case Blob(_) => NewNode(TypeBytes, key, v)
    case Float32(_) => NewNode(TypeFloat32, key, v)
    case Float64(_) => NewNode(TypeFloat64, key, v)
    case Int(i) => NewNode(TypeInt64, key, Int64(i))
    case Int32(i) => NewNode(TypeInt64, key, Int64(i))
    case Int64(i) => NewNode(TypeInt64, key, Int64(i))
    case Uint32(u) => NewNode(TypeInt64, key, Int64(u))
    case Uint64(u) => if u <= MAX_INT64 then NewNode(TypeInt64, key, Int64(u)) else NewNode(TypeUInt64, key, Uint64(u))
    case _ => NewNode(TypeNull, key, NoValue)
  }

  // Maps sorted by key without their missing fields, integers widened, array elements keyed by
  // index, nulls explicit; all other metadata dropped.
  ghost function Normal(n: Node, key: GoBytes): Node
    decreases Size(n), 0
  {
    if EncodesAsNull(n) then NewNode(TypeNull, key, NoValue)
    else if IsRecord(n) then SortedSize(n.children); RecordNode(key, NormalFields(SortedFields(n.children)))
    else if n.typ == TypeArray then ListNode(key, NormalElements(n.children, 0))
    else ScalarNode(n.value, key)
  }

  ghost function NormalElements(nodes: seq<Node>, from: nat): (r: seq<Node>)
    ensures |r| == |nodes|
    decreases SizeAll(nodes), 1
  {
    if nodes == [] then [] else [Normal(nodes[0], IndexKey(from))] + NormalElements(nodes[1..], from + 1)
  }

  ghost function NormalFields(fields: seq<Node>): (r: seq<Node>)
    ensures |r| == |fields|
    decreases SizeAll(fields), 1
  {
    if fields == [] then [] else [Normal(fields[0], KeyOf(fields[0]))] + NormalFields(fields[1..])
  }

  // What the item of a node decodes to is the normal form of that node.
  lemma {:induction false} NodeOfItemIsNormal(n: Node, key: GoBytes)
    ensures NodeOf(ItemOf(n), key) == Normal(n, key)
    decreases Size(n), 0
  {
    if EncodesAsNull(n) {
    } else if IsRecord(n) {
      SortedSize(n.children);
      FieldsAreNormal(SortedFields(n.children));
      RecordIsNormal(n, key, NormalFields(SortedFields(n.children)));
    } else if n.typ == TypeArray {
      ElementsAreNormal(n.children, 0);
      ArrayIsNormal(n, key, NormalElements(n.children, 0));
    } else {
      ScalarIsNormal(n.value, key);
    }
  }

  lemma RecordIsNormal(n: Node, key: GoBytes, nodes: seq<Node>)
    requires !EncodesAsNull(n) && IsRecord(n)
    requires nodes == FieldNodes(EntriesOf(SortedFields(n.children))) == NormalFields(SortedFields(n.children))
    ensures NodeOf(ItemOf(n), key) == Normal(n, key)
  {
    RecordEncodes(n);
    RecordNormal(n, key);
    NodeOfDict(ItemOf(n), EntriesOf(SortedFields(n.children)), key);
  }

  lemma NodeOfDict(item: Item, entries: seq<Entry>, key: GoBytes)
    requires item == Dict(entries)
    ensures NodeOf(item, key) == RecordNode(key, FieldNodes(entries))
  {}

  lemma RecordNormal(n: Node, key: GoBytes)
    requires !EncodesAsNull(n) && IsRecord(n)
    ensures Normal(n, key) == RecordNode(key, NormalFields(SortedFields(n.children)))
  {}

  lemma ArrayIsNormal(n: Node, key: GoBytes, nodes: seq<Node>)
    requires !EncodesAsNull(n) && !IsRecord(n) && n.typ == TypeArray
    requires nodes == ElementNodes(ItemsOf(n.children), 0) == NormalElements(n.children, 0)
    ensures NodeOf(ItemOf(n), key) == Normal(n, key)
  {
    ArrayEncodes(n);
    assert NodeOf(ItemOf(n), key) == ListNode(key, nodes);
  }

  lemma ScalarIsNormal(v: Value, key: GoBytes)
    ensures NodeOf(ScalarItem(v), key) == ScalarNode(v, key)
  {
    LeafIsNormal(v, key);
    assert NodeOf(ScalarItem(v), key) == LeafNode(ScalarItem(v), key);
  }

  lemma LeafIsNormal(v: Value, key: GoBytes)
    ensures !ScalarItem(v).List? && !ScalarItem(v).Dict?
    ensures LeafNode(ScalarItem(v), key) == ScalarNode(v, key)
  {}

  lemma {:induction false} ElementsAreNormal(nodes: seq<Node>, from: nat)
    ensures ElementNodes(ItemsOf(nodes), from) == NormalElements(nodes, from)
    decreases SizeAll(nodes), 1
  {
    if nodes != [] {
      NodeOfItemIsNormal(nodes[0], IndexKey(from));
      ElementsAreNormal(nodes[1..], from + 1);
      assert ItemsOf(nodes)[1..] == ItemsOf(nodes[1..]);
    }
  }

  lemma {:induction false} FieldsAreNormal(fields: seq<Node>)
    ensures FieldNodes(EntriesOf(fields)) == NormalFields(fields)
    decreases SizeAll(fields), 1
  {
    if fields != [] {
      NodeOfItemIsNormal(fields[0], KeyOf(fields[0]));
      FieldsAreNormal(fields[1..]);
      assert EntriesOf(fields)[1..] == EntriesOf(fields[1..]);
    }
  }
}
