/** The order in which maps list their keys, against the deterministic order of section 4.2.1 of RFC 8949. */
module CborKeyOrder {
  import opened ByteStrings
  import opened Utf8
  import opened Uir
  import opened KeyOrder
  import opened CborFormat
  import opened CborItems
  import opened CborNodes
  import opened CborStability
  import opened CborTheorems

  // ---------- encoded keys compare by length first ----------

  function EncodedKey(key: GoBytes): Bytes {
    Serialize(TextString(key))
  }

  lemma {:induction false} LessBehind(front: Bytes, a: Bytes, b: Bytes)
    ensures Less(front + a, front + b) == Less(a, b)
  {
    if front == [] {
      assert [] + a == a && [] + b == b;
    } else {
      assert (front + a)[1..] == front[1..] + a && (front + b)[1..] == front[1..] + b;
      LessBehind(front[1..], a, b);
    }
  }

  lemma {:induction false} LessBigEndian(width: nat, n: nat, m: nat, a: Bytes, b: Bytes)
    requires n < m < Pow256(width)
    ensures Less(BigEndian(width, n) + a, BigEndian(width, m) + b)
    decreases width
  {
    if width > 0 {
      var front, front', x, y := BigEndian(width - 1, n / 256), BigEndian(width - 1, m / 256), [n % 256], [m % 256];
      Rejoin(front, x, a);
      Rejoin(front', y, b);
      if n / 256 < m / 256 {
        LessBigEndian(width - 1, n / 256, m / 256, x + a, y + b);
      } else {
        LessBehind(front, x + a, y + b);
      }
    }
  }

  // A shorter text has the smaller head, whatever follows.
  lemma HeadsAscend(n: uint64, m: uint64, a: Bytes, b: Bytes)
    requires n < m
    ensures Less(Head(3, n) + a, Head(3, m) + b)
  {
    if WidthOf(n) == WidthOf(m) && n >= 24 {
      ArgumentsAscend(n, m, a, b);
    }
  }

  function WidthOf(n: uint64): nat {
    if n < 24 then 0 else if n <= 0xFF then 1 else if n <= 0xFFFF then 2 else if n <= 0xFFFF_FFFF then 4 else 8
  }

  lemma HeadSplits(n: uint64, a: Bytes)
    requires n >= 24
    ensures exists lead :: Head(3, n) + a == [lead] + (BigEndian(WidthOf(n), n) + a) && lead == LeadOf(WidthOf(n))
    ensures n < Pow256(WidthOf(n))
  {
    Pow256Widths();
    var lead := LeadOf(WidthOf(n));
    if n <= 0xFF {
      assert BigEndian(1, n) == BigEndian(0, n / 256) + [n % 256] == [n];
    }
    Rejoin([lead], BigEndian(WidthOf(n), n), a);
    assert Head(3, n) == [lead] + BigEndian(WidthOf(n), n);
  }

  function LeadOf(width: nat): byte {
    if width == 1 then 120 else if width == 2 then 121 else if width == 4 then 122 else 123
  }

  lemma ArgumentsAscend(n: uint64, m: uint64, a: Bytes, b: Bytes)
    requires 24 <= n < m && WidthOf(n) == WidthOf(m)
    ensures Less(Head(3, n) + a, Head(3, m) + b)
  {
    var w := WidthOf(n);
    HeadSplits(n, a);
    HeadSplits(m, b);
    LessBigEndian(w, n, m, a, b);
    LessBehind([LeadOf(w)], BigEndian(w, n) + a, BigEndian(w, m) + b);
  }

  // Encoded keys are in order exactly if the shorter one comes first and keys of one length are in order.
  lemma EncodedLess(a: GoBytes, b: GoBytes)
    ensures Less(EncodedKey(a), EncodedKey(b)) <==> |a| < |b| || (|a| == |b| && Less(a, b))
  {
    if |a| == |b| {
      LessBehind(Head(3, |a|), a, b);
    } else if |a| < |b| {
      HeadsAscend(|a|, |b|, a, b);
    } else {
      HeadsAscend(|b|, |a|, b, a);
      LessTotal(EncodedKey(a), EncodedKey(b));
    }
  }

  // ---------- whole documents ----------

  ghost predicate EncodedKeysAscend(entries: seq<Entry>) {
    forall i, j | 0 <= i < j < |entries| :: Less(EncodedKey(entries[i].key), EncodedKey(entries[j].key))
  }

  // At every map the encoded keys ascend, as section 4.2.1 of RFC 8949 asks.
  ghost predicate Deterministic(item: Item)
    decreases item
  {
    match item
    case List(items) => AllDeterministic(items)
    case Dict(entries) => EncodedKeysAscend(entries) && ValuesDeterministic(entries)
    case _ => true
  }

  ghost predicate AllDeterministic(items: seq<Item>)
    decreases items
  {
    items == [] || (Deterministic(items[0]) && AllDeterministic(items[1..]))
  }

  ghost predicate ValuesDeterministic(entries: seq<Entry>)
    decreases entries
  {
    entries == [] || (Deterministic(entries[0].value) && ValuesDeterministic(entries[1..]))
  }

  ghost predicate KeyLengthsGrow(fields: seq<Node>) {
    forall i, j | 0 <= i < j < |fields| :: |KeyOf(fields[i])| <= |KeyOf(fields[j])|
  }

  // At every record, with its fields sorted by key, no key is shorter than one before it.
  ghost predicate LengthsNeverDecrease(n: Node)
    decreases Size(n), 0
  {
    EncodesAsNull(n) ||
    if IsRecord(n) then
      KeyLengthsGrow(SortedFields(n.children)) && (SortedSize(n.children); AllLengths(SortedFields(n.children)))
    else if n.typ == TypeArray then AllLengths(n.children)
    else true
  }

  ghost predicate AllLengths(nodes: seq<Node>)
    decreases SizeAll(nodes), 1
  {
    nodes == [] || (LengthsNeverDecrease(nodes[0]) && AllLengths(nodes[1..]))
  }

  lemma KeysIff(fields: seq<Node>)
    requires Ascending(fields)
    ensures EncodedKeysAscend(EntriesOf(fields)) <==> KeyLengthsGrow(fields)
  {
    var entries := EntriesOf(fields);
    forall i, j | 0 <= i < j < |fields|
      ensures Less(EncodedKey(entries[i].key), EncodedKey(entries[j].key)) <==> |KeyOf(fields[i])| <= |KeyOf(fields[j])|
    {
      EncodedLess(KeyOf(fields[i]), KeyOf(fields[j]));
    }
  }

  // Main result: what is written keeps the deterministic key order exactly if, in every record sorted by key,
  // the lengths of the keys never decrease.
  lemma {:induction false} DeterministicIff(n: Node)
    requires Encodable(n)
    ensures Deterministic(ItemOf(n)) <==> LengthsNeverDecrease(n)
    decreases Size(n), 0
  {
    if EncodesAsNull(n) {
    } else if IsRecord(n) {
      SortedSize(n.children);
      RecordIff(n, SortedFields(n.children));
    } else if n.typ == TypeArray {
      ArrayEncodes(n);
      ElementsIff(n.children);
    }
  }

  lemma {:induction false} RecordIff(n: Node, fields: seq<Node>)
    requires Encodable(n) && !EncodesAsNull(n) && IsRecord(n) && fields == SortedFields(n.children)
    ensures Deterministic(ItemOf(n)) <==> LengthsNeverDecrease(n)
    decreases SizeAll(fields), 2
  {
    RecordEncodes(n);
    SortAscends(PresentFields(n.children));
    KeysIff(fields);
    ValuesIff(fields);
    RecordLengths(n, fields);
    DictOrder(ItemOf(n), EntriesOf(fields));
  }

  lemma DictOrder(item: Item, entries: seq<Entry>)
    requires item == Dict(entries)
    ensures Deterministic(item) <==> EncodedKeysAscend(entries) && ValuesDeterministic(entries)
  {}

  lemma RecordLengths(n: Node, fields: seq<Node>)
    requires !EncodesAsNull(n) && IsRecord(n) && fields == SortedFields(n.children)
    ensures LengthsNeverDecrease(n) <==> KeyLengthsGrow(fields) && AllLengths(fields)
  {
    SortedSize(n.children);
  }

  lemma {:induction false} ValuesIff(fields: seq<Node>)
    requires FieldsEncodable(fields)
    ensures ValuesDeterministic(EntriesOf(fields)) <==> AllLengths(fields)
    decreases SizeAll(fields), 1
  {
    if fields != [] {
      DeterministicIff(fields[0]);
      ValuesIff(fields[1..]);
      assert EntriesOf(fields)[1..] == EntriesOf(fields[1..]);
    }
  }

  lemma {:induction false} ElementsIff(nodes: seq<Node>)
    requires AllEncodable(nodes)
    ensures AllDeterministic(ItemsOf(nodes)) <==> AllLengths(nodes)
    decreases SizeAll(nodes), 1
  {
    if nodes != [] {
      DeterministicIff(nodes[0]);
      ElementsIff(nodes[1..]);
      assert ItemsOf(nodes)[1..] == ItemsOf(nodes[1..]);
    }
  }

  // ---------- an input that fails ----------

  // "aa" is written in front of "b", which section 4.2.1 of RFC 8949 puts first.
  lemma LongKeyComesFirst(key: GoBytes) returns (n: Node)
    ensures n.Node? && n.typ == TypeMap && |n.children| == 2 && Encoded(n).Some?
    ensures KeyOf(n.children[0]) == [0x61, 0x61] && KeyOf(n.children[1]) == [0x62]
    ensures ItemOf(n) == Dict([Entry([0x61, 0x61], Boolean(true)), Entry([0x62], Boolean(true))])
    ensures !Deterministic(ItemOf(n))
  {
    var a, b := Entry([0x61, 0x61], Boolean(true)), Entry([0x62], Boolean(true));
    KeysAreValid();
    EncodedLess(a.key, b.key);
    TwoAreFine(a, b, [a, b]);
    TwoEntries([a, b]);
    n := IsWritten([a, b], key);
    NodeOfDict(Dict([a, b]), [a, b], key);
  }

  lemma TwoAreFine(a: Entry, b: Entry, entries: seq<Entry>)
    requires Less(a.key, b.key) && !Less(EncodedKey(a.key), EncodedKey(b.key)) && ValidUtf8(a.key) && ValidUtf8(b.key)
    requires entries == [a, b] && a.value == b.value == Boolean(true)
    ensures WellFormed(Dict(entries)) && Canonical(Dict(entries)) && !Deterministic(Dict(entries))
  {
    LessTotal(a.key, b.key);
    assert entries[0] == a && entries[1] == b;
  }

  lemma IsWritten(entries: seq<Entry>, key: GoBytes) returns (n: Node)
    requires WellFormed(Dict(entries)) && Canonical(Dict(entries)) && CountEntries(entries) == 4 && DepthEntries(entries) == 1
    ensures n == NodeOf(Dict(entries), key) && Encoded(n).Some? && ItemOf(n) == Dict(entries)
  {
    n := NodeOf(Dict(entries), key);
    CanonicalComesBack(Dict(entries), key);
    NodeOfReencodes(Dict(entries), key);
    SmallIsEncoded(n, Dict(entries));
  }

  lemma SmallIsEncoded(n: Node, item: Item)
    requires Encodable(n) && ItemOf(n) == item && ItemCount(item) <= CBOR_MAX_ITEMS && Depth(item) <= CBOR_MAX_DEPTH
    ensures Encoded(n).Some?
  {}

  lemma KeysAreValid()
    ensures ValidUtf8([0x61, 0x61]) && ValidUtf8([0x62])
  {
    assert [0x61, 0x61][1..] == [0x61] && [0x61][1..] == [] && [0x62][1..] == [];
    assert ValidUtf8([0x61]) by {
      assert CharWidth([0x61]) == 1;
    }
  }

  lemma TwoEntries(entries: seq<Entry>)
    requires |entries| == 2 && entries[0].value == entries[1].value == Boolean(true)
    ensures CountEntries(entries) == 4 && DepthEntries(entries) == 1 && |FieldNodes(entries)| == 2
    ensures KeyOf(FieldNodes(entries)[0]) == entries[0].key && KeyOf(FieldNodes(entries)[1]) == entries[1].key
  {
    assert entries[1..][0] == entries[1] && entries[1..][1..] == [];
    assert CountEntries(entries[1..]) == 2 + CountEntries([]) && DepthEntries(entries[1..]) == Max(1, DepthEntries([]));
    assert FieldNodes(entries[1..]) == [NodeOf(entries[1].value, entries[1].key)] + FieldNodes([]);
  }
}
