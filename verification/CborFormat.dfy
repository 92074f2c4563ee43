/** What serialising and decoding have to do with each other: a round trip, prefix-freeness
    and minimality, for every item and every suffix. */
module CborFormat {
  import opened ByteStrings
  import opened Utf8
  import opened CborItems

  // The items that the reference decoder can produce.
  ghost predicate WellFormed(item: Item)
    decreases item
  {
    match item
    case Negative(v) => v <= MAX_INT64
    case TextString(s) => ValidUtf8(s)
    case List(items) => |items| < TWO_64 && forall i | i in items :: WellFormed(i)
    case Dict(entries) =>
      && |entries| < TWO_64 && DistinctKeys(entries)
      && forall e | e in entries :: ValidUtf8(e.key) && WellFormed(e.value)
    case _ => true
  }

  // ---------- heads ----------

  lemma HeadReads(major: nat, value: uint64, rest: Bytes)
    requires major < 8
    ensures var h := ReadHead(Head(major, value) + rest);
            h.HeadView? && h.major == major && h.value == value && h.rest == rest
  {
    var s := Head(major, value) + rest;
    assert s[0] / 32 == major;
    if value >= 24 {
      var w := ArgumentWidth(s[0] % 32);
      Pow256Widths();
      BigEndianRoundTrip(w, value);
      assert BigEndian(1, value) == BigEndian(0, value / 256) + [value % 256];
      assert s[1..1 + w] == BigEndian(w, value);
      assert s[1 + w..] == rest;
    } else {
      assert s[1..] == rest;
    }
  }

  lemma FloatHeadReads(info: nat, value: uint64, rest: Bytes)
    requires info == 25 || info == 26 || info == 27
    requires value < Pow256(ArgumentWidth(info))
    ensures var w := ArgumentWidth(info);
            ReadHead([7 * 32 + info] + BigEndian(w, value) + rest) == HeadView(7, info, value, rest)
  {
    var w := ArgumentWidth(info);
    var s := [7 * 32 + info] + BigEndian(w, value) + rest;
    BigEndianRoundTrip(w, value);
    assert s[1..1 + w] == BigEndian(w, value);
    assert s[1 + w..] == rest;
  }

  lemma ReadHeadExtends(s: Bytes, t: Bytes)
    requires ReadHead(s).HeadView?
    ensures ReadHead(s + t) == ReadHead(s).(rest := ReadHead(s).rest + t)
  {
    var info := s[0] % 32;
    assert (s + t)[0] == s[0];
    if info < 24 {
      assert (s + t)[1..] == s[1..] + t;
    } else {
      var w := ArgumentWidth(info);
      assert (s + t)[1..1 + w] == s[1..1 + w];
      assert (s + t)[1 + w..] == s[1 + w..] + t;
    }
  }

  lemma HeadIsShortest(s: Bytes)
    requires ReadHead(s).HeadView?
    ensures HeadWidth(ReadHead(s)) + |ReadHead(s).rest| <= |s|
  {
    var h := ReadHead(s);
    if h.info >= 24 {
      var w := ArgumentWidth(h.info);
      Pow256Widths();
      FromBigEndianBound(s[1..1 + w]);
      assert |s[1..1 + w]| == w;
    }
  }

  // ---------- decoding undoes serialising, whatever follows ----------

  lemma {:induction false} SerializedDecodes(item: Item, rest: Bytes)
    requires WellFormed(item)
    ensures DecodeItem(Serialize(item) + rest) == GotItem(item, rest)
    decreases item
  {
    match item {
      case List(items) =>
        SerializedItemsDecode(items, rest);
        ListDecodes(items, SerializeAll(items) + rest, rest);
        Rejoin(Head(4, |items|), SerializeAll(items), rest);
      case Dict(entries) =>
        SerializedEntriesDecode(entries, rest);
        DictDecodes(entries, SerializeEntries(entries) + rest, rest);
        Rejoin(Head(5, |entries|), SerializeEntries(entries), rest);
      case _ => ScalarDecodes(item, rest);
    }
  }

  lemma ListDecodes(items: seq<Item>, body: Bytes, rest: Bytes)
    requires |items| < TWO_64
    requires DecodeItems(|items|, body) == GotItems(items, rest)
    ensures DecodeItem(Head(4, |items|) + body) == GotItem(List(items), rest)
  {
    HeadReads(4, |items|, body);
  }

  lemma DictDecodes(entries: seq<Entry>, body: Bytes, rest: Bytes)
    requires |entries| < TWO_64 && DistinctKeys(entries)
    requires DecodeEntries(|entries|, body) == GotEntries(entries, rest)
    ensures DecodeItem(Head(5, |entries|) + body) == GotItem(Dict(entries), rest)
  {
    HeadReads(5, |entries|, body);
  }

  lemma ScalarDecodes(item: Item, rest: Bytes)
    requires !item.List? && !item.Dict? && WellFormed(item)
    ensures DecodeItem(Serialize(item) + rest) == GotItem(item, rest)
  {
    match item {
      case Unsigned(v) => HeadReads(0, v, rest);
      case Negative(v) => HeadReads(1, v, rest);
      case ByteString(s) => StringDecodes(2, s, rest);
      case TextString(s) => StringDecodes(3, s, rest);
      case Boolean(b) => assert (Serialize(item) + rest)[1..] == rest;
      case Nothing => assert (Serialize(item) + rest)[1..] == rest;
      case _ => FloatDecodes(item, rest);
    }
  }

  lemma FloatDecodes(item: Item, rest: Bytes)
    requires item.Half? || item.Single? || item.Double?
    ensures DecodeItem(Serialize(item) + rest) == GotItem(item, rest)
  {
    Pow256Widths();
    match item {
      case Half(bits) => FloatLeaf(25, bits, Serialize(item), rest);
      case Single(bits) => FloatLeaf(26, bits, Serialize(item), rest);
      case Double(bits) => FloatLeaf(27, bits, Serialize(item), rest);
    }
  }

  lemma FloatLeaf(info: nat, value: uint64, s: Bytes, rest: Bytes)
    requires info == 25 || info == 26 || info == 27
    requires value < Pow256(ArgumentWidth(info))
    requires s == [7 * 32 + info] + BigEndian(ArgumentWidth(info), value)
    ensures DecodeItem(s + rest) == DecodeLeaf(ReadHead(s + rest))
    ensures ReadHead(s + rest) == HeadView(7, info, value, rest)
  {
    FloatHeadReads(info, value, rest);
  }

  lemma StringDecodes(major: nat, s: GoBytes, rest: Bytes)
    requires major == 2 || (major == 3 && ValidUtf8(s))
    ensures DecodeItem(Head(major, |s|) + s + rest)
         == GotItem(if major == 2 then ByteString(s) else TextString(s), rest)
  {
    HeadReads(major, |s|, s + rest);
    assert Head(major, |s|) + s + rest == Head(major, |s|) + (s + rest);
    assert (s + rest)[..|s|] == s && (s + rest)[|s|..] == rest;
  }

  lemma {:induction false} SerializedItemsDecode(items: seq<Item>, rest: Bytes)
    requires forall i | i in items :: WellFormed(i)
    ensures DecodeItems(|items|, SerializeAll(items) + rest) == GotItems(items, rest)
    decreases items
  {
    if items == [] {
      assert SerializeAll(items) + rest == rest;
    } else {
      var tail := SerializeAll(items[1..]) + rest;
      Rejoin(Serialize(items[0]), SerializeAll(items[1..]), rest);
      SerializedDecodes(items[0], tail);
      SerializedItemsDecode(items[1..], rest);
      assert [items[0]] + items[1..] == items;
    }
  }

  lemma {:induction false} SerializedEntryDecodes(e: Entry, rest: Bytes)
    requires ValidUtf8(e.key) && WellFormed(e.value)
    ensures DecodeEntry(SerializeEntry(e) + rest) == GotEntry(e, rest)
    decreases e, 0
  {
    var mid := Serialize(e.value) + rest;
    Rejoin(Head(3, |e.key|) + e.key, Serialize(e.value), rest);
    StringDecodes(3, e.key, mid);
    SerializedDecodes(e.value, rest);
  }

  lemma {:induction false} SerializedEntriesDecode(entries: seq<Entry>, rest: Bytes)
    requires forall e | e in entries :: ValidUtf8(e.key) && WellFormed(e.value)
    ensures DecodeEntries(|entries|, SerializeEntries(entries) + rest) == GotEntries(entries, rest)
    decreases entries
  {
    if entries == [] {
      assert SerializeEntries(entries) + rest == rest;
    } else {
      var tail := SerializeEntries(entries[1..]) + rest;
      Rejoin(SerializeEntry(entries[0]), SerializeEntries(entries[1..]), rest);
      SerializedEntryDecodes(entries[0], tail);
      SerializedEntriesDecode(entries[1..], rest);
      assert [entries[0]] + entries[1..] == entries;
    }
  }

  // ---------- only well-formed items are decoded ----------

  lemma {:induction false} DecodedIsWellFormed(s: Bytes)
    requires DecodeItem(s).GotItem?
    ensures WellFormed(DecodeItem(s).item)
    decreases |s|, 0
  {
    var h := ReadHead(s);
    if h.major == 4 {
      DecodedItemsAreWellFormed(h.value, h.rest);
    } else if h.major == 5 {
      DecodedEntriesAreWellFormed(h.value, h.rest);
    }
  }

  lemma {:induction false} DecodedItemsAreWellFormed(count: nat, s: Bytes)
    requires DecodeItems(count, s).GotItems?
    ensures forall i | i in DecodeItems(count, s).items :: WellFormed(i)
    decreases |s|, 1
  {
    if count > 0 {
      DecodedIsWellFormed(s);
      DecodedItemsAreWellFormed(count - 1, DecodeItem(s).rest);
    }
  }

  lemma {:induction false} DecodedEntriesAreWellFormed(count: nat, s: Bytes)
    requires DecodeEntries(count, s).GotEntries?
    ensures forall e | e in DecodeEntries(count, s).entries :: ValidUtf8(e.key) && WellFormed(e.value)
    decreases |s|, 2
  {
    if count > 0 {
      DecodedEntryIsWellFormed(s);
      DecodedEntriesAreWellFormed(count - 1, DecodeEntry(s).rest);
    }
  }

  lemma {:induction false} DecodedEntryIsWellFormed(s: Bytes)
    requires DecodeEntry(s).GotEntry?
    ensures var e := DecodeEntry(s).entry; ValidUtf8(e.key) && WellFormed(e.value)
    decreases |s|, 1
  {
    DecodedIsWellFormed(s);
    DecodedIsWellFormed(DecodeItem(s).rest);
  }

  // ---------- prefix-freeness: bytes after a complete item never matter ----------

  lemma {:induction false} DecodeExtends(s: Bytes, t: Bytes)
    requires DecodeItem(s).GotItem?
    ensures DecodeItem(s + t) == GotItem(DecodeItem(s).item, DecodeItem(s).rest + t)
    decreases |s|, 0
  {
    ReadHeadExtends(s, t);
    var h := ReadHead(s);
    if h.major == 2 || h.major == 3 {
      assert (h.rest + t)[..h.value] == h.rest[..h.value];
      assert (h.rest + t)[h.value..] == h.rest[h.value..] + t;
    } else if h.major == 4 {
      DecodeItemsExtends(h.value, h.rest, t);
    } else if h.major == 5 {
      DecodeEntriesExtends(h.value, h.rest, t);
    }
  }

  lemma {:induction false} DecodeItemsExtends(count: nat, s: Bytes, t: Bytes)
    requires DecodeItems(count, s).GotItems?
    ensures DecodeItems(count, s + t) == GotItems(DecodeItems(count, s).items, DecodeItems(count, s).rest + t)
    decreases |s|, 1
  {
    if count > 0 {
      DecodeExtends(s, t);
      DecodeItemsExtends(count - 1, DecodeItem(s).rest, t);
    }
  }

  lemma {:induction false} DecodeEntryExtends(s: Bytes, t: Bytes)
    requires DecodeEntry(s).GotEntry?
    ensures DecodeEntry(s + t) == GotEntry(DecodeEntry(s).entry, DecodeEntry(s).rest + t)
    decreases |s|, 1
  {
    DecodeExtends(s, t);
    DecodeExtends(DecodeItem(s).rest, t);
  }

  lemma EntriesDecodeStep(count: nat, s: Bytes, first: EntryResult, more: EntriesResult)
    requires count > 0 && first == DecodeEntry(s) && first.GotEntry? && more == DecodeEntries(count - 1, first.rest)
    ensures DecodeEntries(count, s)
         == if more.NoEntries? then NoEntries else GotEntries([first.entry] + more.entries, more.rest)
  {}

  lemma {:induction false} DecodeEntriesExtends(count: nat, s: Bytes, t: Bytes)
    requires DecodeEntries(count, s).GotEntries?
    ensures DecodeEntries(count, s + t) == GotEntries(DecodeEntries(count, s).entries, DecodeEntries(count, s).rest + t)
    decreases |s|, 2
  {
    if count > 0 {
      DecodeEntryExtends(s, t);
      var first := DecodeEntry(s);
      DecodeEntriesExtends(count - 1, first.rest, t);
      EntriesDecodeStep(count, s, first, DecodeEntries(count - 1, first.rest));
      EntriesDecodeStep(count, s + t, DecodeEntry(s + t), DecodeEntries(count - 1, first.rest + t));
    }
  }

  // ---------- no encoding of an item is shorter than its serialisation ----------

  lemma {:induction false} SerializeIsShortest(s: Bytes)
    requires DecodeItem(s).GotItem?
    ensures |Serialize(DecodeItem(s).item)| + |DecodeItem(s).rest| <= |s|
    decreases |s|, 0
  {
    HeadIsShortest(s);
    var h := ReadHead(s);
    if h.major == 4 {
      AllShortest(h.value, h.rest);
    } else if h.major == 5 {
      EntriesShortest(h.value, h.rest);
    } else {
      LeafIsShortest(h);
    }
  }

  lemma LeafIsShortest(h: HeadView)
    requires h.HeadView? && h.major < 8
    requires (h.info == 25 ==> h.value < 0x1_0000) && (h.info == 26 ==> h.value < 0x1_0000_0000)
    requires DecodeLeaf(h).GotItem?
    ensures |Serialize(DecodeLeaf(h).item)| + |DecodeLeaf(h).rest| <= HeadWidth(h) + |h.rest|
  {}

  // The number of bytes of a head, floats included.
  function HeadWidth(h: HeadView): nat
    requires h.HeadView? && h.major < 8
  {
    if h.major == 7 then 1 + ArgumentWidth(h.info) else |Head(h.major, h.value)|
  }

  lemma {:induction false} AllShortest(count: nat, s: Bytes)
    requires DecodeItems(count, s).GotItems?
    ensures |SerializeAll(DecodeItems(count, s).items)| + |DecodeItems(count, s).rest| <= |s|
    decreases |s|, 1
  {
    if count > 0 {
      var item, rest := DecodeItem(s).item, DecodeItem(s).rest;
      var items := DecodeItems(count, s).items;
      var tail := DecodeItems(count - 1, rest).items;
      assert items[0] == item && items[1..] == tail;
      SerializeIsShortest(s);
      AllShortest(count - 1, rest);
    }
  }

  lemma {:induction false} EntryShortest(s: Bytes)
    requires DecodeEntry(s).GotEntry?
    ensures |SerializeEntry(DecodeEntry(s).entry)| + |DecodeEntry(s).rest| <= |s|
    decreases |s|, 1
  {
    var key, rest := DecodeItem(s).item, DecodeItem(s).rest;
    SerializeIsShortest(s);
    assert Serialize(key) == Head(3, |key.s|) + key.s;
    SerializeIsShortest(rest);
  }

  lemma {:induction false} EntriesShortest(count: nat, s: Bytes)
    requires DecodeEntries(count, s).GotEntries?
    ensures |SerializeEntries(DecodeEntries(count, s).entries)| + |DecodeEntries(count, s).rest| <= |s|
    decreases |s|, 2
  {
    if count > 0 {
      var e, rest := DecodeEntry(s).entry, DecodeEntry(s).rest;
      var entries := DecodeEntries(count, s).entries;
      assert entries[0] == e && entries[1..] == DecodeEntries(count - 1, rest).entries;
      EntryShortest(s);
      EntriesShortest(count - 1, rest);
    }
  }
}
