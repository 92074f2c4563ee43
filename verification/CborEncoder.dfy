/** The CBOR writer: one pass over the tree with a shared, decreasing item budget. */
module CborEncoder {
  import opened ByteStrings
  import opened Utf8
  import opened Uir
  import opened KeyOrder
  import opened CborItems
  import opened CborNodes
  import opened CborFormat

  datatype EncodeError =
    | TooManyItems | TooDeep | NilField | DuplicateKey(key: Bytes) | BadKey | BadText | Unsupported

  datatype Result<+T> = Ok(value: T) | Err(error: EncodeError)

  // The budget that the recursion shares through a pointer.
  class Budget {
    var left: int

    constructor (limit: int)
      ensures left == limit
    {
      left := limit;
    }
  }

  method AppendCbor(dst: Bytes, n: Node, depth: nat, budget: Budget) returns (r: Result<Bytes>)
    modifies budget
    ensures r.Ok? <==> Encodable(n) && Fits(ItemOf(n), old(budget.left), depth)
    ensures r.Ok? ==> r.value == dst + Serialize(ItemOf(n)) && budget.left == old(budget.left) - ItemCount(ItemOf(n))
    decreases Size(n), 0
  {
    budget.left := budget.left - 1;
    if budget.left < 0 {
      return Err(TooManyItems);
    }
    if depth > CBOR_MAX_DEPTH {
      return Err(TooDeep);
    }
    if n.NilNode? || n.typ == TypeNull || n.presence == Uir.Null || n.presence == Missing {
      return Ok(dst + [0xF6]);
    }
    if n.typ == TypeMap || n.typ == TypeDefinition {
      RecordEncodes(n);
      r := AppendRecord(dst, n, depth, budget);
    } else if n.typ == TypeArray {
      ArrayEncodes(n);
      r := AppendArray(dst, n, depth, budget);
    } else {
      r := AppendScalar(dst, n.value);
    }
  }

  method AppendScalar(dst: Bytes, v: Value) returns (r: Result<Bytes>)
    ensures r.Ok? <==> ScalarEncodable(v)
    ensures r.Ok? ==> r.value == dst + Serialize(ScalarItem(v))
  {
    match v {
      case NoValue => return Ok(dst + [0xF6]);
      case Bool(b) => return Ok(dst + [if b then 0xF5 else 0xF4]);
      case Str(s) =>
        if !ValidUtf8(s) {
          return Err(BadText);
        }
        return Ok(dst + Head(3, |s|) + s);
      case Blob(s) => return Ok(dst + Head(2, |s|) + s);
      case Int(i) => return Ok(dst + SignedHead(i));
      case Int32(i) => return Ok(dst + SignedHead(i));
      case Int64(i) => return Ok(dst + SignedHead(i));
      case Uint32(u) => return Ok(dst + Head(0, u));
      case Uint64(u) => return Ok(dst + Head(0, u));
      case Float32(bits) => return Ok(dst + [0xFA] + BigEndian(4, bits));
      case Float64(bits) => return Ok(dst + [0xFB] + BigEndian(8, bits));
      case Opaque(_) => return Err(Unsupported);
    }
  }

  // cborSigned
  function SignedHead(value: int64): (b: Bytes)
    ensures b == Serialize(IntItem(value))
  {
    if value < 0 then Head(1, -(value + 1)) else Head(0, value)
  }

  method AppendArray(dst: Bytes, n: Node, depth: nat, budget: Budget) returns (r: Result<Bytes>)
    requires n.Node? && budget.left >= 0 && depth <= CBOR_MAX_DEPTH
    modifies budget
    ensures r.Ok? <==> && AllEncodable(n.children)
                       && CountAll(ItemsOf(n.children)) <= old(budget.left)
                       && depth + DepthAll(ItemsOf(n.children)) <= CBOR_MAX_DEPTH
    ensures r.Ok? ==>
              && r.value == dst + Serialize(List(ItemsOf(n.children)))
              && budget.left == old(budget.left) - CountAll(ItemsOf(n.children))
    decreases SizeAll(n.children), 3
  {
    var out := dst + Head(4, Count64(|n.children|));
    assert n.children[0..] == n.children;
    for i := 0 to |n.children|
      invariant budget.left >= 0
      invariant forall k | 0 <= k < i :: Encodable(n.children[k])
      invariant out + SerializeAll(ItemsOf(n.children[i..])) == dst + Serialize(List(ItemsOf(n.children)))
      invariant budget.left - CountAll(ItemsOf(n.children[i..])) == old(budget.left) - CountAll(ItemsOf(n.children))
      invariant ExceedsDepth(depth, DepthAll(ItemsOf(n.children[i..]))) == ExceedsDepth(depth, DepthAll(ItemsOf(n.children)))
    {
      ItemsStep(n.children, i, out);
      SizeOfElement(n.children, i);
      var child := AppendCbor(out, n.children[i], depth + 1, budget);
      if child.Err? {
        return child;
      }
      out := child.value;
    }
    return Ok(out);
  }

  predicate ExceedsDepth(depth: nat, levels: nat) {
    depth + levels > CBOR_MAX_DEPTH
  }

  // How the remainder of a list shrinks by one node.
  lemma ItemsStep(nodes: seq<Node>, i: nat, out: Bytes)
    requires i < |nodes|
    ensures var item, rest := ItemOf(nodes[i]), ItemsOf(nodes[i + 1..]);
            && out + SerializeAll(ItemsOf(nodes[i..])) == (out + Serialize(item)) + SerializeAll(rest)
            && CountAll(ItemsOf(nodes[i..])) == ItemCount(item) + CountAll(rest)
            && DepthAll(ItemsOf(nodes[i..])) == Max(1 + Depth(item), DepthAll(rest))
  {
    assert nodes[i..][0] == nodes[i] && nodes[i..][1..] == nodes[i + 1..];
    var items := ItemsOf(nodes[i..]);
    assert items[0] == ItemOf(nodes[i]) && items[1..] == ItemsOf(nodes[i + 1..]);
    Rejoin(out, Serialize(items[0]), SerializeAll(items[1..]));
  }

  // The fields of a record that will be written, in their original order.
  method CollectFields(children: seq<Node>) returns (r: Result<seq<Node>>)
    ensures r.Ok? <==> NilNode !in children && DistinctNodeKeys(PresentFields(children))
    ensures r.Ok? ==> r.value == PresentFields(children)
  {
    var fields: seq<Node> := [];
    var seen: set<Bytes> := {};
    assert children[0..] == children;
    for i := 0 to |children|
      invariant NilNode !in children[..i]
      invariant PresentFields(children) == fields + PresentFields(children[i..])
      invariant DistinctAndSeen(fields, seen)
    {
      var child := children[i];
      if child.NilNode? {
        return Err(NilField);
      }
      PresentStep(children, i, fields);
      if child.presence == Missing {
        continue;
      }
      FieldSeen(fields, seen, child, PresentFields(children[i + 1..]));
      assert fields + ([child] + PresentFields(children[i + 1..])) == PresentFields(children);
      if child.key in seen {
        return Err(DuplicateKey(child.key));
      }
      seen := seen + {child.key};
      fields := fields + [child];
    }
    return Ok(fields);
  }

  lemma PresentStep(children: seq<Node>, i: nat, fields: seq<Node>)
    requires i < |children| && children[i].Node?
    requires PresentFields(children) == fields + PresentFields(children[i..])
    ensures var rest := PresentFields(children[i + 1..]);
            PresentFields(children) == if children[i].presence == Missing then fields + rest else (fields + [children[i]]) + rest
  {
    assert children[i..][0] == children[i] && children[i..][1..] == children[i + 1..];
  }

  method AppendRecord(dst: Bytes, n: Node, depth: nat, budget: Budget) returns (r: Result<Bytes>)
    requires n.Node? && budget.left >= 0 && depth <= CBOR_MAX_DEPTH
    modifies budget
    ensures r.Ok? <==> && NilNode !in n.children && DistinctNodeKeys(PresentFields(n.children))
                       && FieldsEncodable(SortedFields(n.children))
                       && CountEntries(EntriesOf(SortedFields(n.children))) <= old(budget.left)
                       && depth + DepthEntries(EntriesOf(SortedFields(n.children))) <= CBOR_MAX_DEPTH
    ensures r.Ok? ==>
              && r.value == dst + Serialize(Dict(EntriesOf(SortedFields(n.children))))
              && budget.left == old(budget.left) - CountEntries(EntriesOf(SortedFields(n.children)))
    decreases SizeAll(n.children), 3
  {
    var collected := CollectFields(n.children);
    if collected.Err? {
      return Err(collected.error);
    }
    var fields := SortByKey(collected.value);
    assert fields == SortedFields(n.children);
    SortedSize(n.children);
    r := AppendFields(dst + Head(5, Count64(|fields|)), fields, depth, budget);
    Rejoin(dst, Head(5, Count64(|fields|)), SerializeEntries(EntriesOf(fields)));
  }

  method AppendFields(dst: Bytes, fields: seq<Node>, depth: nat, budget: Budget) returns (r: Result<Bytes>)
    requires budget.left >= 0 && depth <= CBOR_MAX_DEPTH
    modifies budget
    ensures r.Ok? <==> && FieldsEncodable(fields)
                       && CountEntries(EntriesOf(fields)) <= old(budget.left)
                       && depth + DepthEntries(EntriesOf(fields)) <= CBOR_MAX_DEPTH
    ensures r.Ok? ==>
              && r.value == dst + SerializeEntries(EntriesOf(fields))
              && budget.left == old(budget.left) - CountEntries(EntriesOf(fields))
    decreases SizeAll(fields), 2
  {
    var out := dst;
    assert fields[0..] == fields;
    ghost var all := EntriesOf(fields);
    for i := 0 to |fields|
      invariant budget.left >= 0
      invariant forall k | 0 <= k < i :: ValidUtf8(KeyOf(fields[k])) && Encodable(fields[k])
      invariant FieldsPending(all, EntriesOf(fields[i..]), dst, old(budget.left), out, budget.left, depth) == true
    {
      var child := AppendField(out, fields, i, depth, budget, all, dst, old(budget.left));
      if child.Err? {
        return child;
      }
      out := child.value;
    }
    return Ok(out);
  }

  // What is written and left of the budget after some entries, with `rem` still to come out of `all`.
  ghost predicate FieldsPending(all: seq<Entry>, rem: seq<Entry>, start: Bytes, limit: int, out: Bytes, left: int, depth: nat) {
    && start + SerializeEntries(all) == out + SerializeEntries(rem)
    && limit - CountEntries(all) == left - CountEntries(rem)
    && ExceedsDepth(depth, DepthEntries(all)) == ExceedsDepth(depth, DepthEntries(rem))
  }

  // One key and its value.
  method AppendField(dst: Bytes, fields: seq<Node>, i: nat, depth: nat, budget: Budget,
                     ghost all: seq<Entry>, ghost start: Bytes, ghost limit: int)
    returns (r: Result<Bytes>)
    requires i < |fields| && budget.left >= 0 && depth <= CBOR_MAX_DEPTH
    requires FieldsPending(all, EntriesOf(fields[i..]), start, limit, dst, budget.left, depth)
    modifies budget
    ensures r.Ok? ==> && budget.left >= 0 && ValidUtf8(KeyOf(fields[i])) && Encodable(fields[i])
                      && FieldsPending(all, EntriesOf(fields[i + 1..]), start, limit, r.value, budget.left, depth)
    ensures r.Err? ==> || !(ValidUtf8(KeyOf(fields[i])) && Encodable(fields[i]))
                       || CountEntries(all) > limit || ExceedsDepth(depth, DepthEntries(all))
    decreases SizeAll(fields), 1
  {
    var field := fields[i];
    EntriesStep(fields, i, dst);
    budget.left := budget.left - 1;
    if budget.left < 0 {
      return Err(TooManyItems);
    }
    if !ValidUtf8(KeyOf(field)) {
      return Err(BadKey);
    }
    SizeOfElement(fields, i);
    r := AppendCbor(dst + Head(3, |KeyOf(field)|) + KeyOf(field), field, depth + 1, budget);
  }

  lemma EntriesStep(fields: seq<Node>, i: nat, out: Bytes)
    requires i < |fields|
    ensures var item, rest := ItemOf(fields[i]), EntriesOf(fields[i + 1..]);
            && out + SerializeEntries(EntriesOf(fields[i..]))
               == out + Head(3, |KeyOf(fields[i])|) + KeyOf(fields[i]) + Serialize(item) + SerializeEntries(rest)
            && CountEntries(EntriesOf(fields[i..])) == 1 + ItemCount(item) + CountEntries(rest)
            && DepthEntries(EntriesOf(fields[i..])) == Max(1 + Depth(item), DepthEntries(rest))
  {
    assert fields[i..][0] == fields[i] && fields[i..][1..] == fields[i + 1..];
    var entries := EntriesOf(fields[i..]);
    assert entries[0] == Entry(KeyOf(fields[i]), ItemOf(fields[i])) && entries[1..] == EntriesOf(fields[i + 1..]);
    Regroup3(out, Head(3, |KeyOf(fields[i])|), KeyOf(fields[i]), Serialize(entries[0].value), SerializeEntries(entries[1..]));
  }

  lemma Regroup3(out: Bytes, a: Bytes, b: Bytes, c: Bytes, d: Bytes)
    ensures out + ((a + b + c) + d) == out + a + b + c + d
  {}

  method GenerateCbor(n: Node) returns (r: Result<Bytes>)
    ensures r.Ok? <==> Encoded(n).Some?
    ensures r.Ok? ==> r.value == Encoded(n).value
  {
    var budget := new Budget(CBOR_MAX_ITEMS);
    r := AppendCbor([], n, 0, budget);
  }
}
