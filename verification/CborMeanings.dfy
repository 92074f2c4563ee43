/** What the CBOR codec keeps of any tree, told apart from how it is encoded: its meaning, the keys of its
    elements, and where the limits lie. */
module CborMeanings {
  import opened ByteStrings
  import opened CborFormat
  import opened CborItems
  import opened CborNodes
  import opened CborTheorems
  import opened CodecChain
  import opened Decimals
  import opened KeyOrder
  import opened Uir

  // ---------- meaning ----------

  // What a tree says to the writer: nil, null and missing nodes say nothing, and of a record the missing fields do not
  // count.
  function TreeMeaning(n: Node): Meaning
    decreases n, 0
  {
    if n.NilNode? || n.typ == TypeNull || n.presence == Uir.Null || n.presence == Missing then Void
    else if n.typ == TypeArray then Sequence(ElementsOfTree(n.children))
    else if n.typ == TypeMap || n.typ == TypeDefinition then Mapping(MembersOfTree(n.children))
    else ValueMeaning(n.value)
  }

  function ElementsOfTree(nodes: seq<Node>): seq<Meaning>
    decreases nodes, 1
  {
    if nodes == [] then [] else [TreeMeaning(nodes[0])] + ElementsOfTree(nodes[1..])
  }

  function MembersOfTree(nodes: seq<Node>): map<Bytes, Meaning>
    decreases nodes, 1
  {
    if nodes == [] then map[]
    else
      var more := MembersOfTree(nodes[1..]);
      if nodes[0].NilNode? || nodes[0].presence == Missing then more else more[nodes[0].key := TreeMeaning(nodes[0])]
  }

  ghost predicate Says(item: Item, n: Node) {
    ItemMeaning(item) == TreeMeaning(n)
  }

  // The item of an encodable tree says what the tree says.
  lemma {:induction false} ItemSaysTree(n: Node)
    requires Encodable(n)
    ensures Says(ItemOf(n), n)
    decreases Size(n), 1
  {
    if EncodesAsNull(n) {
    } else if IsRecord(n) {
      RecordEncodes(n);
      SortedSize(n.children);
      SortedSayTheSame(n.children);
      FieldsSayMembers(SortedFields(n.children), EntriesOf(SortedFields(n.children)));
      RecordSays(n, EntriesOf(SortedFields(n.children)));
    } else if n.typ == TypeArray {
      ArrayEncodes(n);
      ElementsSayTree(n.children, ItemsOf(n.children));
      ArraySays(n, ItemsOf(n.children));
    } else {
      ScalarSays(n.value);
      assert ItemOf(n) == ScalarItem(n.value);
    }
  }

  lemma RecordSays(n: Node, entries: seq<Entry>)
    requires !EncodesAsNull(n) && IsRecord(n) && EntryMeanings(entries) == MembersOfTree(n.children)
    ensures ItemOf(n) == Dict(entries) ==> Says(ItemOf(n), n)
  {}

  lemma ArraySays(n: Node, items: seq<Item>)
    requires !EncodesAsNull(n) && n.typ == TypeArray && ItemMeanings(items) == ElementsOfTree(n.children)
    ensures ItemOf(n) == List(items) ==> Says(ItemOf(n), n)
  {}

  lemma ScalarSays(v: Value)
    requires ScalarEncodable(v)
    ensures ItemMeaning(ScalarItem(v)) == ValueMeaning(v)
  {}

  lemma {:induction false} ElementsSayTree(nodes: seq<Node>, items: seq<Item>)
    requires AllEncodable(nodes) && items == ItemsOf(nodes)
    ensures ItemMeanings(items) == ElementsOfTree(nodes)
    decreases SizeAll(nodes), 2
  {
    if nodes != [] {
      assert items[0] == ItemOf(nodes[0]) && items[1..] == ItemsOf(nodes[1..]);
      ItemSaysTree(nodes[0]);
      ElementsSayTree(nodes[1..], items[1..]);
    }
  }

  ghost predicate AllThere(nodes: seq<Node>) {
    forall i | 0 <= i < |nodes| :: nodes[i].Node? && nodes[i].presence != Missing
  }

  lemma {:induction false} FieldsSayMembers(fields: seq<Node>, entries: seq<Entry>)
    requires AllThere(fields) && FieldsEncodable(fields) && entries == EntriesOf(fields)
    ensures EntryMeanings(entries) == MembersOfTree(fields)
    decreases SizeAll(fields), 2
  {
    if fields != [] {
      assert entries[0] == Entry(KeyOf(fields[0]), ItemOf(fields[0])) && entries[1..] == EntriesOf(fields[1..]);
      ItemSaysTree(fields[0]);
      FieldsSayMembers(fields[1..], entries[1..]);
    }
  }

  // Neither the missing fields nor the order matter.
  lemma SortedSayTheSame(children: seq<Node>)
    requires DistinctNodeKeys(PresentFields(children))
    ensures AllThere(SortedFields(children)) && MembersOfTree(SortedFields(children)) == MembersOfTree(children)
  {
    PresentSayTheSame(children);
    var fields, sorted := PresentFields(children), SortedFields(children);
    assert forall i | 0 <= i < |fields| :: fields[i] in fields;
    SortSaysTheSame(fields, sorted);
    SortedMembers(fields, sorted);
  }

  lemma {:induction false} PresentSayTheSame(children: seq<Node>)
    ensures MembersOfTree(PresentFields(children)) == MembersOfTree(children)
  {
    if children != [] {
      PresentSayTheSame(children[1..]);
      if children[0].Node? && children[0].presence != Missing {
        assert PresentFields(children)[1..] == PresentFields(children[1..]);
      }
    }
  }

  lemma {:induction false} SortSaysTheSame(fields: seq<Node>, sorted: seq<Node>)
    requires AllThere(fields) && DistinctNodeKeys(fields) && sorted == SortByKey(fields)
    ensures MembersOfTree(sorted) == MembersOfTree(fields)
  {
    if fields != [] {
      var tail := SortByKey(fields[1..]);
      SortSaysTheSame(fields[1..], tail);
      SortedMembers(fields[1..], tail);
      InsertSaysMore(fields[0], tail, sorted);
    }
  }

  lemma {:induction false} InsertSaysMore(x: Node, sorted: seq<Node>, r: seq<Node>)
    requires r == Insert(x, sorted) && x.Node? && x.presence != Missing && AllThere(sorted)
    requires forall i | 0 <= i < |sorted| :: KeyOf(sorted[i]) != KeyOf(x)
    ensures MembersOfTree(r) == MembersOfTree(sorted)[x.key := TreeMeaning(x)]
  {
    if sorted == [] || !Less(KeyOf(sorted[0]), KeyOf(x)) {
      assert r[0] == x && r[1..] == sorted;
    } else {
      var y, rest, tail := sorted[0], sorted[1..], r[1..];
      assert r[0] == y && tail == Insert(x, rest);
      InsertSaysMore(x, rest, tail);
      FieldsSwap(MembersOfTree(rest), x.key, TreeMeaning(x), y.key, TreeMeaning(y));
    }
  }

  // Main result: for every tree the writer accepts, what the reader returns means what the tree says.
  lemma MeaningComesBack(n: Node)
    requires Encoded(n).Some?
    ensures Parsed(Encoded(n).value).Some? && MeaningOf(Parsed(Encoded(n).value).value) == TreeMeaning(n)
  {
    var item := ItemOf(n);
    EncodableIsWellFormed(n);
    SerializedDecodes(item, []);
    assert Serialize(item) + [] == Serialize(item);
    DecodedNodeIsPlain(item, Ascii("Root"));
    RootMeansTheSame(NodeOf(item, Ascii("Root")));
    ItemSaysTree(n);
  }

  lemma RootMeansTheSame(n: Node)
    requires n.Node?
    ensures MeaningOf(Rooted(n)) == MeaningOf(n)
  {}

  // ---------- the keys of elements ----------

  // At every level, child i of an array has the decimal numeral of i as its key, and the array says of which type its
  // first element is.
  ghost predicate IsNumbered(n: Node)
    decreases n, 0
  {
    && n.Node? && AllNumbered(n.children)
    && (n.typ == TypeArray ==> HaveNumerals(n.children) && n.elementType == FirstType(n.children))
  }

  function FirstType(nodes: seq<Node>): UirType {
    if nodes == [] || nodes[0].NilNode? then TypeUnknown else nodes[0].typ
  }

  ghost predicate AllNumbered(nodes: seq<Node>)
    decreases nodes, 1
  {
    forall i | 0 <= i < |nodes| :: IsNumbered(nodes[i])
  }

  ghost predicate HaveNumerals(nodes: seq<Node>) {
    forall i | 0 <= i < |nodes| :: IsNumeral(KeyOf(nodes[i]), i)
  }

  lemma {:induction false} NodesAreNumbered(item: Item, key: GoBytes)
    requires WellFormed(item)
    ensures IsNumbered(NodeOf(item, key))
    decreases item, 1
  {
    match item {
      case List(items) =>
        ElementsAreNumbered(items, 0);
        NumeralKeys(items);
      case Dict(entries) => FieldsAreNumbered(entries);
      case _ =>
    }
  }

  lemma {:induction false} ElementsAreNumbered(items: seq<Item>, from: nat)
    requires forall i | i in items :: WellFormed(i)
    ensures AllNumbered(ElementNodes(items, from))
    decreases items, 0
  {
    if items != [] {
      NodesAreNumbered(items[0], IndexKey(from));
      ElementsAreNumbered(items[1..], from + 1);
    }
  }

  lemma {:induction false} FieldsAreNumbered(entries: seq<Entry>)
    requires forall e | e in entries :: WellFormed(e.value)
    ensures AllNumbered(FieldNodes(entries))
    decreases entries, 0
  {
    if entries != [] {
      NodesAreNumbered(entries[0].value, entries[0].key);
      FieldsAreNumbered(entries[1..]);
    }
  }

  lemma NumeralKeys(items: seq<Item>)
    requires |items| < TWO_64
    ensures HaveNumerals(ElementNodes(items, 0))
  {
    forall i | 0 <= i < |items| ensures IsNumeral(KeyOf(ElementNodes(items, 0)[i]), i) {
      KeyOfElement(items, 0, i);
      DecimalIsNumeral(i);
    }
  }

  lemma {:induction false} KeyOfElement(items: seq<Item>, from: nat, i: nat)
    requires i < |items|
    ensures KeyOf(ElementNodes(items, from)[i]) == IndexKey(from + i)
  {
    ElementsUnfold(items, from);
    if i > 0 {
      KeyOfElement(items[1..], from + 1, i - 1);
    }
  }

  lemma ElementsUnfold(items: seq<Item>, from: nat)
    requires items != []
    ensures ElementNodes(items, from) == [NodeOf(items[0], IndexKey(from))] + ElementNodes(items[1..], from + 1)
  {}

  // Main result: in every document that is accepted, elements are keyed by the numerals of their positions.
  lemma ParsedIsNumbered(data: Bytes)
    requires Parsed(data).Some?
    ensures IsNumbered(Parsed(data).value)
  {
    DecodedIsWellFormed(data);
    NodesAreNumbered(DecodeItem(data).item, Ascii("Root"));
    StillNumbered(NodeOf(DecodeItem(data).item, Ascii("Root")));
  }

  lemma StillNumbered(n: Node)
    requires IsNumbered(n)
    ensures IsNumbered(Rooted(n))
  {}

  // ---------- where the limits lie ----------

  // `levels` arrays around a null, and an array of `count` nulls.
  function Tower(levels: nat): Item {
    if levels == 0 then Nothing else List([Tower(levels - 1)])
  }

  function Row(count: nat): Item {
    List(seq(count, i => Nothing))
  }

  ghost predicate IsAccepted(item: Item) {
    Parsed(Serialize(item)).Some?
  }

  ghost predicate IsWritten(item: Item, key: GoBytes) {
    Encoded(NodeOf(item, key)).Some?
  }

  lemma {:induction false} TowerSize(levels: nat)
    ensures WellFormed(Tower(levels)) && ItemCount(Tower(levels)) == levels + 1 && Depth(Tower(levels)) == levels
  {
    if levels > 0 {
      TowerSize(levels - 1);
      SingleList(Tower(levels - 1), [Tower(levels - 1)]);
    }
  }

  lemma SingleList(item: Item, items: seq<Item>)
    requires items == [item] && WellFormed(item)
    ensures WellFormed(List(items)) && ItemCount(List(items)) == 1 + ItemCount(item) && Depth(List(items)) == 1 + Depth(item)
  {
    assert items[1..] == [];
    assert CountAll(items) == ItemCount(items[0]) + CountAll([]);
    assert DepthAll(items) == Max(1 + Depth(items[0]), DepthAll([]));
  }

  lemma {:induction false} NullsSize(items: seq<Item>)
    requires forall i | 0 <= i < |items| :: items[i] == Nothing
    ensures CountAll(items) == |items| && DepthAll(items) <= 1
  {
    if items != [] {
      NullsSize(items[1..]);
    }
  }

  lemma FitsDecides(item: Item, key: GoBytes)
    requires WellFormed(item)
    ensures IsAccepted(item) <==> ItemCount(item) <= 100000 && Depth(item) <= 64
    ensures IsWritten(item, key) <==> ItemCount(item) <= 100000 && Depth(item) <= 64
  {
    SerializedDecodes(item, []);
    assert Serialize(item) + [] == Serialize(item);
    NodeOfReencodes(item, key);
  }

  // 64 levels are read and written, and no more.
  lemma DepthLimit(levels: nat, key: GoBytes)
    ensures IsAccepted(Tower(levels)) <==> levels <= 64
    ensures IsWritten(Tower(levels), key) <==> levels <= 64
  {
    TowerSize(levels);
    FitsDecides(Tower(levels), key);
  }

  // 100000 items are read and written, counting the array itself, and no more.
  lemma ItemLimit(count: nat, key: GoBytes)
    requires count < TWO_64
    ensures IsAccepted(Row(count)) <==> count < 100000
    ensures IsWritten(Row(count), key) <==> count < 100000
  {
    var items := seq(count, i => Nothing);
    NullsSize(items);
    RowSize(items);
    FitsDecides(List(items), key);
  }

  lemma RowSize(items: seq<Item>)
    requires |items| < TWO_64 && CountAll(items) == |items| && DepthAll(items) <= 1
    requires forall i | 0 <= i < |items| :: items[i] == Nothing
    ensures WellFormed(List(items)) && ItemCount(List(items)) == 1 + |items| && Depth(List(items)) <= 1
  {}
}
