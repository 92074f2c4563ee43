/** The CBOR reader: a cursor over the input that also counts items, with early rejections. */
module CborParser {
  import opened ByteStrings
  import opened Utf8
  import opened Uir
  import opened KeyOrder
  import opened Floats
  import opened CborItems
  import opened CborNodes

  datatype ParseError =
    | Truncated | TooManyItems | TooDeep | ReservedLength | NegativeOverflow | BadText
    | ImpossibleLength | KeyNotText | DuplicateKey(key: Bytes) | UnsupportedValue | TrailingBytes

  datatype Result<+T> = Ok(value: T) | Err(error: ParseError)

  // The decoded item respects the limits when its first unit is number `items + 1` at this depth.
  predicate WithinLimits(item: Item, items: nat, depth: nat) {
    Fits(item, CBOR_MAX_ITEMS - items, depth)
  }

  class Parser {
    const data: Bytes
    var pos: nat
    var items: nat

    constructor (data: Bytes)
      ensures this.data == data && pos == 0 && items == 0
    {
      this.data := data;
      pos, items := 0, 0;
    }

    ghost predicate Valid()
      reads this
    {
      pos <= |data|
    }

    method Take(count: uint64) returns (r: Result<Bytes>)
      requires Valid()
      modifies this`pos
      ensures Valid()
      ensures r.Ok? <==> count <= |data| - old(pos)
      ensures r.Ok? ==> pos == old(pos) + count && r.value == data[old(pos)..][..count]
      ensures r.Err? ==> pos == old(pos)
    {
      if count > |data| - pos {
        return Err(Truncated);
      }
      r := Ok(data[pos..pos + count]);
      pos := pos + count;
    }

    // The initial byte and the argument that follows it.
    method TakeHead() returns (r: Result<(nat, nat, uint64)>)
      requires Valid()
      modifies this`pos
      ensures Valid() && pos >= old(pos)
      ensures r.Ok? <==> ReadHead(data[old(pos)..]).HeadView?
      ensures r.Ok? ==> var h := ReadHead(data[old(pos)..]);
                        r.value == (h.major, h.info, h.value) && data[pos..] == h.rest && pos > old(pos)
    {
      var head := Take(1);
      if head.Err? {
        return Err(Truncated);
      }
      var major, info := head.value[0] / 32, head.value[0] % 32;
      if info < 24 {
        return Ok((major, info, info));
      }
      var count := ArgumentWidth(info);
      if count == 0 {
        return Err(ReservedLength);
      }
      r := TakeArgument(major, info, count);
      assert r.Ok? ==> data[old(pos)..][1..1 + count] == data[old(pos) + 1..pos];
    }

    method TakeArgument(major: nat, info: nat, count: uint64) returns (r: Result<(nat, nat, uint64)>)
      requires Valid() && count <= 8
      modifies this`pos
      ensures Valid() && pos >= old(pos)
      ensures r.Ok? <==> count <= |data| - old(pos)
      ensures r.Ok? ==> && pos == old(pos) + count && pos <= |data|
                        && r.value == (major, info, FromBigEndian(data[old(pos)..pos]))
    {
      var digits := Take(count);
      if digits.Err? {
        return Err(Truncated);
      }
      var b := digits.value;
      ArgumentFits(b);
      var value: nat := 0;
      for i := 0 to |b|
        invariant value == FromBigEndian(b[..i])
      {
        assert b[..i + 1][..i] == b[..i];
        value := value * 256 + b[i];
      }
      assert b[..|b|] == b == data[old(pos)..pos];
      return Ok((major, info, value));
    }

    method Read(key: GoBytes, depth: nat) returns (r: Result<Node>)
      requires Valid()
      modifies this
      ensures Valid() && pos >= old(pos) && items >= old(items)
      ensures r.Ok? <==> && DecodeItem(data[old(pos)..]).GotItem?
                         && WithinLimits(DecodeItem(data[old(pos)..]).item, old(items), depth)
      ensures r.Ok? ==> var d := DecodeItem(data[old(pos)..]);
                        && r.value == NodeOf(d.item, key)
                        && data[pos..] == d.rest && pos > old(pos)
                        && items == old(items) + ItemCount(d.item)
      decreases |data| - pos, 2
    {
      items := items + 1;
      if items > CBOR_MAX_ITEMS {
        return Err(TooManyItems);
      }
      if depth > CBOR_MAX_DEPTH {
        return Err(TooDeep);
      }
      var head := TakeHead();
      if head.Err? {
        return Err(head.error);
      }
      var (major, info, value) := head.value;
      if major == 4 {
        r := ReadArray(key, value, depth);
      } else if major == 5 {
        r := ReadMap(key, value, depth);
      } else {
        r := ReadLeaf(key, major, info, value);
      }
    }

    // Scalars and strings, from just behind their head.
    method ReadLeaf(key: GoBytes, major: nat, info: nat, value: uint64) returns (r: Result<Node>)
      requires Valid() && major < 8 && major != 4 && major != 5
      requires (info == 25 ==> value < 0x1_0000) && (info == 26 ==> value < 0x1_0000_0000)
      modifies this`pos
      ensures Valid() && pos >= old(pos)
      ensures r.Ok? <==> DecodeLeaf(HeadView(major, info, value, data[old(pos)..])).GotItem?
      ensures r.Ok? ==> var d := DecodeLeaf(HeadView(major, info, value, data[old(pos)..]));
                        r.value == LeafNode(d.item, key) && data[pos..] == d.rest
    {
      if major == 0 {
        if value <= MAX_INT64 {
          return Ok(NewNode(TypeInt64, key, Int64(value)));
        }
        return Ok(NewNode(TypeUInt64, key, Uint64(value)));
      } else if major == 1 {
        if value > MAX_INT64 {
          return Err(NegativeOverflow);
        }
        return Ok(NewNode(TypeInt64, key, Int64(-1 - value)));
      } else if major == 2 || major == 3 {
        r := ReadString(key, major, info, value);
      } else {
        r := ReadSimple(key, major, info, value);
      }
    }

    method ReadString(key: GoBytes, major: nat, info: nat, value: uint64) returns (r: Result<Node>)
      requires Valid() && (major == 2 || major == 3)
      requires (info == 25 ==> value < 0x1_0000) && (info == 26 ==> value < 0x1_0000_0000)
      modifies this`pos
      ensures Valid() && pos >= old(pos)
      ensures r.Ok? <==> DecodeLeaf(HeadView(major, info, value, data[old(pos)..])).GotItem?
      ensures r.Ok? ==> var d := DecodeLeaf(HeadView(major, info, value, data[old(pos)..]));
                        r.value == LeafNode(d.item, key) && data[pos..] == d.rest
    {
      var b := Take(value);
      if b.Err? {
        return Err(Truncated);
      }
      if major == 2 {
        return Ok(NewNode(TypeBytes, key, Blob(b.value)));
      }
      if !ValidUtf8(b.value) {
        return Err(BadText);
      }
      return Ok(NewNode(TypeString, key, Str(b.value)));
    }

    method ReadSimple(key: GoBytes, major: nat, info: nat, value: uint64) returns (r: Result<Node>)
      requires Valid() && (major == 6 || major == 7)
      requires (info == 25 ==> value < 0x1_0000) && (info == 26 ==> value < 0x1_0000_0000)
      ensures var d := DecodeLeaf(HeadView(major, info, value, data[pos..]));
              && (r.Ok? <==> d.GotItem?)
              && (r.Ok? ==> r.value == LeafNode(d.item, key) && data[pos..] == d.rest)
    {
      if major == 7 {
        if info == 20 || info == 21 {
          return Ok(NewNode(TypeBoolean, key, Bool(info == 21)));
        } else if info == 22 {
          return Ok(NewNode(TypeNull, key, NoValue));
        } else if info == 25 {
          return Ok(NewNode(TypeFloat64, key, Float64(HalfToDouble(value))));
        } else if info == 26 {
          return Ok(NewNode(TypeFloat32, key, Float32(value)));
        } else if info == 27 {
          return Ok(NewNode(TypeFloat64, key, Float64(value)));
        }
      }
      return Err(UnsupportedValue);
    }

    method ReadArray(key: GoBytes, value: uint64, depth: nat) returns (r: Result<Node>)
      requires Valid() && items <= CBOR_MAX_ITEMS && depth <= CBOR_MAX_DEPTH
      modifies this
      ensures Valid() && pos >= old(pos) && items >= old(items)
      ensures r.Ok? <==> ItemsAccepted(DecodeItems(value, data[old(pos)..]), old(items), depth)
      ensures r.Ok? ==> var d := DecodeItems(value, data[old(pos)..]);
                        && r.value == ListNode(key, ElementNodes(d.items, 0))
                        && data[pos..] == d.rest && items == old(items) + CountAll(d.items)
      decreases |data| - pos, 6
    {
      if value > CBOR_MAX_ITEMS - items {
        return Err(TooManyItems);
      }
      if value > |data| - pos {
        return Err(ImpossibleLength);
      }
      var children := ReadElements(value, depth);
      if children.Err? {
        return Err(children.error);
      }
      return Ok(ListNode(key, children.value));
    }

    method ReadElements(value: uint64, depth: nat) returns (r: Result<seq<Node>>)
      requires Valid() && items <= CBOR_MAX_ITEMS && depth <= CBOR_MAX_DEPTH
      modifies this
      ensures Valid() && pos >= old(pos) && items >= old(items)
      ensures r.Ok? <==> ItemsAccepted(DecodeItems(value, data[old(pos)..]), old(items), depth)
      ensures r.Ok? ==> var d := DecodeItems(value, data[old(pos)..]);
                        r.value == ElementNodes(d.items, 0) && data[pos..] == d.rest && items == old(items) + CountAll(d.items)
      decreases |data| - pos, 5
    {
      var children: seq<Node> := [];
      ghost var all, left, deep := DecodeItems(value, data[pos..]), value as nat, 0;
      for i := 0 to value
        invariant Valid() && old(items) <= items <= CBOR_MAX_ITEMS && pos >= old(pos)
        invariant |children| == i && depth + deep <= CBOR_MAX_DEPTH && left == value - i
        invariant ItemsPending(all, DecodeItems(left, data[pos..]), children, items - old(items), deep)
      {
        var more, deep' := ReadElement(children, i, depth, left, all, old(items), deep);
        if more.Err? {
          return more;
        }
        children, left, deep := more.value, left - 1, deep';
      }
      return Ok(children);
    }

    // One more element: `count` are still to come.
    method ReadElement(children: seq<Node>, i: nat, depth: nat, ghost count: nat, ghost all: ItemsResult,
                       ghost from: nat, ghost deep: nat)
      returns (r: Result<seq<Node>>, ghost deep': nat)
      requires Valid() && from <= items <= CBOR_MAX_ITEMS && count > 0
      requires |children| == i && depth + deep <= CBOR_MAX_DEPTH
      requires ItemsPending(all, DecodeItems(count, data[pos..]), children, items - from, deep)
      modifies this
      ensures Valid() && pos >= old(pos) && items >= old(items)
      ensures r.Err? ==> !ItemsAccepted(all, from, depth)
      ensures r.Ok? ==> && items <= CBOR_MAX_ITEMS && depth + deep' <= CBOR_MAX_DEPTH && pos > old(pos)
                        && |r.value| == i + 1
                        && ItemsPending(all, DecodeItems(count - 1, data[pos..]), r.value, items - from, deep')
      decreases |data| - pos, 3
    {
      ghost var next, rem, used := DecodeItem(data[pos..]), DecodeItems(count, data[pos..]), items - from;
      var child := Read(IndexKey(i), depth + 1);
      if child.Err? {
        ItemsPendingFail(all, rem, next, children, from, used, depth, deep);
        return Err(child.error), 0;
      }
      ghost var more := DecodeItems(count - 1, data[pos..]);
      ItemsPendingStep(all, rem, next.item, child.value, more, children, used, items - from, deep);
      return Ok(children + [child.value]), Max(deep, 1 + Depth(next.item));
    }

    method ReadMap(key: GoBytes, value: uint64, depth: nat) returns (r: Result<Node>)
      requires Valid() && items <= CBOR_MAX_ITEMS && depth <= CBOR_MAX_DEPTH
      modifies this
      ensures Valid() && pos >= old(pos) && items >= old(items)
      ensures r.Ok? <==> EntriesAccepted(DecodeEntries(value, data[old(pos)..]), old(items), depth)
      ensures r.Ok? ==> var d := DecodeEntries(value, data[old(pos)..]);
                        && r.value == RecordNode(key, FieldNodes(d.entries))
                        && data[pos..] == d.rest && items == old(items) + CountEntries(d.entries)
      decreases |data| - pos, 6
    {
      if value > (CBOR_MAX_ITEMS - items) / 2 {
        return Err(TooManyItems);
      }
      if value > |data| - pos || value > (|data| - pos) / 2 {
        return Err(ImpossibleLength);
      }
      var children := ReadFields(value, depth);
      if children.Err? {
        return Err(children.error);
      }
      return Ok(RecordNode(key, children.value));
    }

    method ReadFields(value: uint64, depth: nat) returns (r: Result<seq<Node>>)
      requires Valid() && items <= CBOR_MAX_ITEMS && depth <= CBOR_MAX_DEPTH
      modifies this
      ensures Valid() && pos >= old(pos) && items >= old(items)
      ensures r.Ok? <==> EntriesAccepted(DecodeEntries(value, data[old(pos)..]), old(items), depth)
      ensures r.Ok? ==> var d := DecodeEntries(value, data[old(pos)..]);
                        r.value == FieldNodes(d.entries) && data[pos..] == d.rest && items == old(items) + CountEntries(d.entries)
      decreases |data| - pos, 5
    {
      var children: seq<Node> := [];
      var seen: set<Bytes> := {};
      ghost var all, left, deep := DecodeEntries(value, data[pos..]), value as nat, 0;
      EntriesPendingStart(all);
      for i := 0 to value
        invariant Valid() && old(items) <= items <= CBOR_MAX_ITEMS && pos >= old(pos)
        invariant depth + deep <= CBOR_MAX_DEPTH && left == value - i
        invariant DistinctAndSeen(children, seen)
        invariant EntriesToCome(all, left, data[pos..], children, items - old(items), deep)
      {
        var more, seen', deep' := ReadField(children, seen, depth, left, all, old(items), deep);
        if more.Err? {
          return more;
        }
        children, seen, left, deep := more.value, seen', left - 1, deep';
      }
      EntriesPendingEnd(all, data[pos..], children, seen, items - old(items), deep);
      return Ok(children);
    }

    // One more field: `count` are still to come.
    method ReadField(children: seq<Node>, seen: set<Bytes>, depth: nat, ghost count: nat, ghost all: EntriesResult,
                     ghost from: nat, ghost deep: nat)
      returns (r: Result<seq<Node>>, seen': set<Bytes>, ghost deep': nat)
      requires Valid() && from <= items <= CBOR_MAX_ITEMS && count > 0 && depth + deep <= CBOR_MAX_DEPTH
      requires DistinctAndSeen(children, seen)
      requires EntriesToCome(all, count, data[pos..], children, items - from, deep)
      modifies this
      ensures Valid() && pos >= old(pos) && items >= old(items)
      ensures r.Err? ==> !EntriesAccepted(all, from, depth)
      ensures r.Ok? ==> && items <= CBOR_MAX_ITEMS && depth + deep' <= CBOR_MAX_DEPTH && pos > old(pos)
                        && DistinctAndSeen(r.value, seen')
                        && EntriesToCome(all, count - 1, data[pos..], r.value, items - from, deep')
      decreases |data| - pos, 4
    {
      ghost var next, rem, used := DecodeEntry(data[pos..]), DecodeEntries(count, data[pos..]), items - from;
      var child := ReadEntry(seen, depth);
      if child.Err? {
        EntriesPendingFail(all, rem, next, seen, children, from, used, depth, deep);
        return Err(child.error), seen, 0;
      }
      ghost var more := DecodeEntries(count - 1, data[pos..]);
      EntriesPendingStep(all, rem, next.entry, child.value, more, children, used, items - from, deep);
      FieldSeen(children, seen, child.value, []);
      return Ok(children + [child.value]), seen + {KeyOf(child.value)}, Max(deep, 1 + Depth(next.entry.value));
    }

    // A key that has not been seen yet and the value behind it.
    method ReadEntry(seen: set<Bytes>, depth: nat) returns (r: Result<Node>)
      requires Valid() && items <= CBOR_MAX_ITEMS && depth <= CBOR_MAX_DEPTH
      modifies this
      ensures Valid() && pos >= old(pos) && items >= old(items)
      ensures r.Ok? <==> EntryAccepted(DecodeEntry(data[old(pos)..]), seen, old(items), depth)
      ensures r.Ok? ==> var d := DecodeEntry(data[old(pos)..]);
                        && r.value == NodeOf(d.entry.value, d.entry.key)
                        && data[pos..] == d.rest && pos > old(pos)
                        && items == old(items) + 1 + ItemCount(d.entry.value)
      decreases |data| - pos, 3
    {
      var k := Read([], depth + 1);
      if k.Err? {
        return k;
      }
      TextNodes(DecodeItem(data[old(pos)..]).item, []);
      if k.value.typ != TypeString || !k.value.value.Str? {
        return Err(KeyNotText);
      }
      var childKey := k.value.value.s;
      if childKey in seen {
        return Err(DuplicateKey(childKey));
      }
      r := Read(childKey, depth + 1);
    }
  }

  // ---------- partly read containers: what is still to come decides the outcome ----------

  ghost predicate ItemsAccepted(d: ItemsResult, items: nat, depth: nat) {
    d.GotItems? && items + CountAll(d.items) <= CBOR_MAX_ITEMS && depth + DepthAll(d.items) <= CBOR_MAX_DEPTH
  }

  ghost predicate EntriesAccepted(d: EntriesResult, items: nat, depth: nat) {
    && d.GotEntries? && items + CountEntries(d.entries) <= CBOR_MAX_ITEMS
    && depth + DepthEntries(d.entries) <= CBOR_MAX_DEPTH && DistinctKeys(d.entries)
  }

  ghost predicate EntryAccepted(d: EntryResult, seen: set<Bytes>, items: nat, depth: nat) {
    && d.GotEntry? && d.entry.key !in seen
    && items + 1 + ItemCount(d.entry.value) <= CBOR_MAX_ITEMS && depth + 1 + Depth(d.entry.value) <= CBOR_MAX_DEPTH
  }

  // `children`, `used` and `deep` describe the elements read so far, `rem` the ones to come.
  ghost predicate ListPending(all: seq<Item>, rem: seq<Item>, children: seq<Node>, used: int, deep: nat) {
    && ElementNodes(all, 0) == children + ElementNodes(rem, |children|)
    && CountAll(all) == used + CountAll(rem)
    && DepthAll(all) == Max(deep, DepthAll(rem))
  }

  ghost predicate ItemsPending(all: ItemsResult, rem: ItemsResult, children: seq<Node>, used: int, deep: nat) {
    if all.NoItems? then rem.NoItems?
    else rem.GotItems? && all.rest == rem.rest && ListPending(all.items, rem.items, children, used, deep)
  }

  ghost predicate ItemsSplit(list: seq<Item>, item: Item, more: seq<Item>, from: nat) {
    && CountAll(list) == ItemCount(item) + CountAll(more)
    && DepthAll(list) == Max(1 + Depth(item), DepthAll(more))
    && ElementNodes(list, from) == [NodeOf(item, IndexKey(from))] + ElementNodes(more, from + 1)
  }

  lemma ItemsUnfold(list: seq<Item>, from: nat)
    requires list != []
    ensures ItemsSplit(list, list[0], list[1..], from)
  {}

  lemma PendingElement(all: seq<Item>, list: seq<Item>, item: Item, node: Node, more: seq<Item>, children: seq<Node>,
                       used: int, used': int, deep: nat)
    requires ListPending(all, list, children, used, deep)
    requires ItemsSplit(list, item, more, |children|)
    requires node == NodeOf(item, IndexKey(|children|)) && used' == used + ItemCount(item)
    ensures ListPending(all, more, children + [node], used', Max(deep, 1 + Depth(item)))
  {
    var nodes := ElementNodes(more, |children| + 1);
    Rejoin(children, [node], nodes);
    assert |children + [node]| == |children| + 1;
    MaxAssociates(deep, 1 + Depth(item), DepthAll(more));
  }

  lemma ItemsPendingStep(all: ItemsResult, rem: ItemsResult, item: Item, node: Node, more: ItemsResult,
                         children: seq<Node>, used: int, used': int, deep: nat)
    requires ItemsPending(all, rem, children, used, deep)
    requires if more.NoItems? then rem.NoItems? else rem == GotItems([item] + more.items, more.rest)
    requires node == NodeOf(item, IndexKey(|children|)) && used' == used + ItemCount(item)
    ensures ItemsPending(all, more, children + [node], used', Max(deep, 1 + Depth(item)))
  {
    if more.GotItems? {
      assert rem.items[1..] == more.items;
      ItemsUnfold(rem.items, |children|);
      PendingElement(all.items, rem.items, item, node, more.items, children, used, used', deep);
    }
  }

  lemma ItemsPendingFail(all: ItemsResult, rem: ItemsResult, next: ItemResult, children: seq<Node>,
                         items: nat, used: nat, depth: nat, deep: nat)
    requires ItemsPending(all, rem, children, used, deep)
    requires rem.GotItems? ==> next.GotItem? && |rem.items| > 0 && rem.items[0] == next.item
    requires next.GotItem? ==> !WithinLimits(next.item, items + used, depth + 1)
    ensures !ItemsAccepted(all, items, depth)
  {
    if rem.GotItems? {
      ItemsUnfold(rem.items, |children|);
    }
  }

  ghost predicate DictPending(all: seq<Entry>, rem: seq<Entry>, children: seq<Node>, used: int, deep: nat) {
    && FieldNodes(all) == children + FieldNodes(rem)
    && CountEntries(all) == used + CountEntries(rem)
    && DepthEntries(all) == Max(deep, DepthEntries(rem))
  }

  ghost predicate EntriesPending(all: EntriesResult, rem: EntriesResult, children: seq<Node>, used: int, deep: nat) {
    if all.NoEntries? then rem.NoEntries?
    else rem.GotEntries? && all.rest == rem.rest && DictPending(all.entries, rem.entries, children, used, deep)
  }

  ghost predicate EntriesSplit(list: seq<Entry>, e: Entry, more: seq<Entry>) {
    && CountEntries(list) == 1 + ItemCount(e.value) + CountEntries(more)
    && DepthEntries(list) == Max(1 + Depth(e.value), DepthEntries(more))
    && FieldNodes(list) == [NodeOf(e.value, e.key)] + FieldNodes(more)
  }

  lemma EntriesUnfold(list: seq<Entry>)
    requires list != []
    ensures EntriesSplit(list, list[0], list[1..])
  {}

  lemma PendingEntry(all: seq<Entry>, list: seq<Entry>, e: Entry, node: Node, more: seq<Entry>, children: seq<Node>,
                     used: int, used': int, deep: nat)
    requires DictPending(all, list, children, used, deep)
    requires EntriesSplit(list, e, more)
    requires node == NodeOf(e.value, e.key) && used' == used + 1 + ItemCount(e.value)
    ensures DictPending(all, more, children + [node], used', Max(deep, 1 + Depth(e.value)))
  {
    Rejoin(children, [node], FieldNodes(more));
    MaxAssociates(deep, 1 + Depth(e.value), DepthEntries(more));
  }

  lemma MaxAssociates(a: nat, b: nat, c: nat)
    ensures Max(a, Max(b, c)) == Max(Max(a, b), c)
  {}

  // The same, with the entries to come in these bytes.
  ghost predicate EntriesToCome(all: EntriesResult, count: nat, rest: Bytes, children: seq<Node>, used: int, deep: nat) {
    EntriesPending(all, DecodeEntries(count, rest), children, used, deep)
  }

  lemma EntriesPendingStart(all: EntriesResult)
    ensures EntriesPending(all, all, [], 0, 0)
  {
    if all.GotEntries? {
      assert [] + FieldNodes(all.entries) == FieldNodes(all.entries);
    }
  }

  lemma EntriesPendingStep(all: EntriesResult, rem: EntriesResult, e: Entry, node: Node, more: EntriesResult,
                           children: seq<Node>, used: int, used': int, deep: nat)
    requires EntriesPending(all, rem, children, used, deep)
    requires if more.NoEntries? then rem.NoEntries? else rem == GotEntries([e] + more.entries, more.rest)
    requires node == NodeOf(e.value, e.key) && used' == used + 1 + ItemCount(e.value)
    ensures EntriesPending(all, more, children + [node], used', Max(deep, 1 + Depth(e.value)))
  {
    if more.GotEntries? {
      assert rem.entries[1..] == more.entries;
      EntriesUnfold(rem.entries);
      PendingEntry(all.entries, rem.entries, e, node, more.entries, children, used, used', deep);
    }
  }

  lemma EntriesPendingFail(all: EntriesResult, rem: EntriesResult, next: EntryResult, seen: set<Bytes>,
                           children: seq<Node>, items: nat, used: nat, depth: nat, deep: nat)
    requires EntriesPending(all, rem, children, used, deep) && DistinctAndSeen(children, seen)
    requires rem.GotEntries? ==> next.GotEntry? && |rem.entries| > 0 && rem.entries[0] == next.entry
    requires !EntryAccepted(next, seen, items + used, depth)
    ensures !EntriesAccepted(all, items, depth)
  {
    if rem.GotEntries? {
      EntriesUnfold(rem.entries);
      if next.entry.key in seen {
        var i :| 0 <= i < |children| && KeyOf(children[i]) == next.entry.key;
        var nodes := FieldNodes(all.entries);
        assert nodes[i] == children[i] && KeyOf(nodes[|children|]) == next.entry.key;
        assert all.entries[i].key == all.entries[|children|].key;
      }
    }
  }

  lemma EntriesPendingEnd(all: EntriesResult, rest: Bytes, children: seq<Node>, seen: set<Bytes>, used: int, deep: nat)
    requires EntriesPending(all, GotEntries([], rest), children, used, deep) && DistinctAndSeen(children, seen)
    ensures all.GotEntries? && all.rest == rest && FieldNodes(all.entries) == children && DistinctKeys(all.entries)
    ensures CountEntries(all.entries) == used && DepthEntries(all.entries) == deep
  {
    assert children + FieldNodes([]) == children;
    forall i, j | 0 <= i < j < |all.entries| ensures all.entries[i].key != all.entries[j].key {
      assert KeyOf(children[i]) == all.entries[i].key && KeyOf(children[j]) == all.entries[j].key;
    }
  }

  lemma TextNodes(item: Item, key: GoBytes)
    ensures NodeOf(item, key).typ == TypeString <==> item.TextString?
    ensures item.TextString? ==> NodeOf(item, key).value == Str(item.s)
  {}

  lemma ArgumentFits(b: Bytes)
    requires |b| <= 8
    ensures FromBigEndian(b) < TWO_64
  {
    FromBigEndianBound(b);
    Pow256Widths();
    assert Pow256(3) == 0x100_0000 && Pow256(5) == 256 * Pow256(4);
    assert Pow256(6) == 0x1_0000 * Pow256(4) && Pow256(7) == 256 * Pow256(6);
  }

  method ParseCbor(data: Bytes) returns (r: Result<Node>)
    ensures r.Ok? <==> Parsed(data).Some?
    ensures r.Ok? ==> r.value == Parsed(data).value
  {
    var p := new Parser(data);
    var n := p.Read(Ascii("Root"), 0);
    assert data[0..] == data;
    if n.Err? {
      return n;
    }
    if p.pos != |data| {
      return Err(TrailingBytes);
    }
    return Ok(SetAnnotation(n.value, Ascii("source_format"), Ascii("cbor")));
  }
}
