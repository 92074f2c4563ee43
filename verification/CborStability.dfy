/** Re-encoding is stable, and the order in which a record lists its fields never shows. */
module CborStability {
  import opened ByteStrings
  import opened Utf8
  import opened Uir
  import opened KeyOrder
  import opened CborItems
  import opened CborFormat
  import opened CborNodes
  import opened CborTheorems

  // ---------- canonical items: keys ascending, no half-precision numbers ----------

  ghost predicate AscendingEntries(entries: seq<Entry>) {
    forall i, j :: 0 <= i < j < |entries| ==> Less(entries[i].key, entries[j].key)
  }

  ghost predicate Canonical(item: Item)
    decreases item
  {
    match item
    case List(items) => forall i | i in items :: Canonical(i)
    case Dict(entries) => AscendingEntries(entries) && forall e | e in entries :: Canonical(e.value)
    case Half(_) => false
    case _ => true
  }

  // The writer only emits canonical items.
  lemma {:induction false} EncodableIsCanonical(n: Node)
    requires Encodable(n)
    ensures Canonical(ItemOf(n))
    decreases Size(n), 0
  {
    if EncodesAsNull(n) {
    } else if IsRecord(n) {
      RecordEncodes(n);
      SortedSize(n.children);
      SortAscends(PresentFields(n.children));
      FieldsAreCanonical(SortedFields(n.children));
    } else if n.typ == TypeArray {
      ElementsAreCanonical(n.children);
    }
  }

  lemma {:induction false} ElementsAreCanonical(nodes: seq<Node>)
    requires AllEncodable(nodes)
    ensures forall i | i in ItemsOf(nodes) :: Canonical(i)
    decreases SizeAll(nodes), 1
  {
    if nodes != [] {
      EncodableIsCanonical(nodes[0]);
      ElementsAreCanonical(nodes[1..]);
    }
  }

  lemma {:induction false} FieldsAreCanonical(fields: seq<Node>)
    requires FieldsEncodable(fields)
    ensures forall e | e in EntriesOf(fields) :: Canonical(e.value)
    decreases SizeAll(fields), 1
  {
    if fields != [] {
      EncodableIsCanonical(fields[0]);
      FieldsAreCanonical(fields[1..]);
    }
  }

  // A canonical item comes back from its node unchanged.
  lemma {:induction false} CanonicalComesBack(item: Item, key: GoBytes)
    requires Canonical(item) && WellFormed(item)
    ensures ItemOf(NodeOf(item, key)) == item
    decreases item, 2
  {
    match item {
      case List(items) => ListComesBack(items, key);
      case Dict(entries) => DictComesBack(entries, key);
      case _ => LeafComesBack(item, NodeOf(item, key), key);
    }
  }

  lemma {:induction false} ListComesBack(items: seq<Item>, key: GoBytes)
    requires forall i | i in items :: Canonical(i) && WellFormed(i)
    ensures ItemOf(NodeOf(List(items), key)) == List(items)
    decreases items, 1
  {
    ElementsComeBack(items, 0);
    ListItem(key, ElementNodes(items, 0));
  }

  lemma ListItem(key: GoBytes, nodes: seq<Node>)
    ensures ItemOf(ListNode(key, nodes)) == List(ItemsOf(nodes))
  {
    ArrayEncodes(ListNode(key, nodes));
  }

  lemma {:induction false} DictComesBack(entries: seq<Entry>, key: GoBytes)
    requires AscendingEntries(entries)
    requires forall e | e in entries :: Canonical(e.value) && WellFormed(e.value)
    ensures ItemOf(NodeOf(Dict(entries), key)) == Dict(entries)
    decreases entries, 2
  {
    FieldsComeBack(entries, FieldNodes(entries));
    SortedRecordItem(key, FieldNodes(entries));
    NodeOfDict(Dict(entries), entries, key);
  }

  lemma SortedRecordItem(key: GoBytes, fields: seq<Node>)
    requires SortedFields(fields) == fields
    ensures ItemOf(RecordNode(key, fields)) == Dict(EntriesOf(fields))
  {
    RecordEncodes(RecordNode(key, fields));
  }

  lemma {:induction false} ElementsComeBack(items: seq<Item>, from: nat)
    requires forall i | i in items :: Canonical(i) && WellFormed(i)
    ensures ItemsOf(ElementNodes(items, from)) == items
    decreases items, 0
  {
    if items != [] {
      CanonicalComesBack(items[0], IndexKey(from));
      ElementsComeBack(items[1..], from + 1);
      assert ElementNodes(items, from)[1..] == ElementNodes(items[1..], from + 1);
    }
  }

  lemma {:induction false} FieldsComeBack(entries: seq<Entry>, fields: seq<Node>)
    requires AscendingEntries(entries) && fields == FieldNodes(entries)
    requires forall e | e in entries :: Canonical(e.value) && WellFormed(e.value)
    ensures SortedFields(fields) == fields && EntriesOf(fields) == entries
    decreases entries, 1
  {
    EntriesComeBack(entries, fields);
    AscendingIsDistinct(entries);
    FieldNodesAreFields(entries, fields);
    SortAscends(fields);
    AscendingUnique(SortByKey(fields), fields);
  }

  lemma AscendingIsDistinct(entries: seq<Entry>)
    requires AscendingEntries(entries)
    ensures DistinctKeys(entries)
  {
    forall i, j | 0 <= i < j < |entries| ensures entries[i].key != entries[j].key {
      LessTotal(entries[i].key, entries[j].key);
    }
  }

  lemma {:induction false} EntriesComeBack(entries: seq<Entry>, fields: seq<Node>)
    requires fields == FieldNodes(entries)
    requires forall e | e in entries :: Canonical(e.value) && WellFormed(e.value)
    ensures EntriesOf(fields) == entries
    decreases entries, 0
  {
    if entries != [] {
      CanonicalComesBack(entries[0].value, entries[0].key);
      EntriesComeBack(entries[1..], fields[1..]);
    }
  }

  lemma RootedEncodesTheSame(n: Node)
    requires n.Node?
    ensures Encodable(Rooted(n)) == Encodable(n) && ItemOf(Rooted(n)) == ItemOf(n)
  {
    var r := Rooted(n);
    assert EncodesAsNull(r) == EncodesAsNull(n) && IsRecord(r) == IsRecord(n);
    if !EncodesAsNull(n) && IsRecord(n) {
      RecordEncodes(n);
      RecordEncodes(r);
    } else if !EncodesAsNull(n) && n.typ == TypeArray {
      ArrayEncodes(n);
      ArrayEncodes(r);
    }
  }

  // ---------- main results ----------

  // Everything the reader accepts can be written again.
  lemma ParseThenEncode(data: Bytes)
    requires Parsed(data).Some?
    ensures Encoded(Parsed(data).value).Some?
  {
    var item := DecodeItem(data).item;
    DecodedIsWellFormed(data);
    NodeOfReencodes(item, Ascii("Root"));
    RootedEncodesTheSame(NodeOf(item, Ascii("Root")));
  }

  // What the writer emits is a fixed point of decoding and encoding again.
  lemma EncodingIsStable(n: Node)
    requires Encoded(n).Some?
    ensures Parsed(Encoded(n).value).Some?
    ensures Encoded(Parsed(Encoded(n).value).value) == Encoded(n)
  {
    var item := ItemOf(n);
    EncodeThenParse(n);
    NodeOfItemIsNormal(n, Ascii("Root"));
    EncodableIsCanonical(n);
    EncodableIsWellFormed(n);
    CanonicalComesBack(item, Ascii("Root"));
    NodeOfReencodes(item, Ascii("Root"));
    RootedEncodesTheSame(NodeOf(item, Ascii("Root")));
  }

  // The fuzzing property: decode, encode, decode, encode reaches a fixed point after one step.
  lemma AcceptedInputsStabilise(data: Bytes)
    requires Parsed(data).Some?
    ensures var out := Encoded(Parsed(data).value);
            out.Some? && Parsed(out.value).Some? && Encoded(Parsed(out.value).value) == out
  {
    ParseThenEncode(data);
    EncodingIsStable(Parsed(data).value);
  }
}
