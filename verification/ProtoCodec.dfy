/** The Protobuf writer and reader for flat messages, as loops over a schema and over the input. */
module ProtoCodec {
  import opened ByteStrings
  import opened Conversions
  import opened Uir
  import opened Varints
  import opened ProtoFields
  import opened ProtoMessages

  method BuildIndex(children: seq<Field>) returns (index: map<GoBytes, nat>)
    ensures index == IndexOf(children)
  {
    index := map[];
    for i := 0 to |children|
      invariant index == IndexOf(children[..i])
    {
      assert children[..i + 1][..i] == children[..i];
      index := index[children[i].key := i];
    }
    assert children[..|children|] == children;
  }

  method BuildFieldsByTag(schema: seq<Field>) returns (byTag: map<uint64, Field>)
    ensures byTag == FieldsByTag(schema)
  {
    byTag := map[];
    for i := 0 to |schema|
      invariant byTag == FieldsByTag(schema[..i])
    {
      assert schema[..i + 1][..i] == schema[..i] && TagOf(schema[..i + 1], i) == TagOf(schema, i);
      var n := TagOf(schema, i);
      if n != 0 {
        byTag := byTag[n := schema[i]];
      }
    }
    assert schema[..|schema|] == schema;
  }

  function Bare(f: Field): Field {
    f.(protoType := NoProtoType, protoNumber := [])
  }

  ghost predicate SameButAnnotations(a: seq<Field>, b: seq<Field>) {
    |a| == |b| && forall k | 0 <= k < |a| :: Bare(a[k]) == Bare(b[k])
  }

  // The record is an array of values whose annotations are filled in on the way.
  method EncodeProtoMessage(lib: Library, record: array<Field>, schema: seq<Field>) returns (r: Option<Bytes>)
    modifies record
    ensures r == EncodeMessage(lib, old(record[..]), schema)
    ensures SameButAnnotations(record[..], old(record[..]))
  {
    if schema == [] {
      r := EncodeOwnFields(lib, record[..]);
      return;
    }
    var index := BuildIndex(record[..]);
    var buf: Bytes := [];
    NothingInFront(EncodeFrom(lib, record[..], index, schema, 0));
    for i := 0 to |schema|
      invariant Join(Some(buf), EncodeFrom(lib, record[..], index, schema, i)) == EncodeMessage(lib, old(record[..]), schema)
      invariant SameButAnnotations(record[..], old(record[..]))
    {
      var b := EncodeNextField(lib, record, index, schema, i);
      if b.None? {
        return None;
      }
      JoinTwice(buf, b.value, EncodeFrom(lib, record[..], index, schema, i + 1));
      buf := buf + b.value;
    }
    assert buf + [] == buf;
    return Some(buf);
  }

  // One field of the schema: nothing if the record has no value for it.
  method EncodeNextField(lib: Library, record: array<Field>, index: map<GoBytes, nat>, schema: seq<Field>, i: nat)
    returns (b: Option<Bytes>)
    requires i < |schema|
    modifies record
    ensures EncodeFrom(lib, old(record[..]), index, schema, i) == Join(b, EncodeFrom(lib, record[..], index, schema, i + 1))
    ensures SameButAnnotations(record[..], old(record[..]))
  {
    if !IsWritten(record[..], index, schema[i]) {
      NothingInFront(EncodeFrom(lib, record[..], index, schema, i + 1));
      return Some([]);
    }
    var p := Position(index, schema[i]).value;
    var child := WithMeta(record[p], schema[i]);
    record[p] := child;
    assert record[..] == old(record[..])[p := child];
    b := EncodeField(lib, TagOf(schema, i), child);
  }

  method EncodeOwnFields(lib: Library, children: seq<Field>) returns (r: Option<Bytes>)
    ensures r == EncodeOwn(lib, children, 0)
  {
    var buf: Bytes := [];
    NothingInFront(EncodeOwn(lib, children, 0));
    for i := 0 to |children|
      invariant Join(Some(buf), EncodeOwn(lib, children, i)) == EncodeOwn(lib, children, 0)
    {
      var b := EncodeField(lib, TagOf(children, i), children[i]);
      if b.None? {
        return None;
      }
      JoinTwice(buf, b.value, EncodeOwn(lib, children, i + 1));
      buf := buf + b.value;
    }
    assert buf + [] == buf;
    return Some(buf);
  }

  lemma NothingInFront(more: Option<Bytes>)
    ensures Join(Some([]), more) == more
  {
    if more.Some? {
      assert [] + more.value == more.value;
    }
  }

  lemma JoinTwice(a: Bytes, b: Bytes, more: Option<Bytes>)
    ensures Join(Some(a), Join(Some(b), more)) == Join(Some(a + b), more)
  {
    if more.Some? {
      assert a + (b + more.value) == (a + b) + more.value;
    }
  }

  // ---------- reading ----------

  method ParseProtobufMessage(lib: Library, input: Bytes, schema: seq<Field>) returns (r: Option<seq<Field>>)
    ensures r == ParseMessage(lib, FieldsByTag(schema), input)
  {
    var byTag := BuildFieldsByTag(schema);
    var children: seq<Field>, data := [], input;
    PrefixedByNothing(ParseMessage(lib, byTag, data));
    while data != []
      invariant Prefixed(children, ParseMessage(lib, byTag, data)) == ParseMessage(lib, byTag, input)
      decreases |data|
    {
      var f := NextField(lib, byTag, data);
      if f.NoField? {
        return None;
      }
      PrefixedTwice(children, [f.field], ParseMessage(lib, byTag, f.rest));
      children, data := children + [f.field], f.rest;
    }
    assert children + [] == children;
    return Some(children);
  }

  // One round: the field key, then a body by wire type.
  method NextField(lib: Library, byTag: map<uint64, Field>, data: Bytes) returns (r: FieldResult)
    ensures r == ReadField(lib, byTag, data)
  {
    var k := DecodeVarint(data);
    if k.Nothing? {
      return NoField;
    }
    var tag, wireType := k.value / 8, k.value % 8;
    var schema := if tag in byTag then Some(byTag[tag]) else None;
    r := NextBody(lib, TagName(tag, schema), wireType, data[k.size..], schema);
  }

  method NextBody(lib: Library, key: GoBytes, wireType: nat, data: Bytes, schema: Option<Field>) returns (r: FieldResult)
    ensures r == ReadBody(lib, key, wireType, data, schema)
  {
    match wireType {
      case 0 =>
        var v := DecodeVarint(data);
        if v.Nothing? {
          return NoField;
        }
        return GotField(DecodeVarintField(lib, key, v.value, schema), data[v.size..]);
      case 1 =>
        if |data| < 8 {
          return NoField;
        }
        FromLittleEndianBound(data[..8]);
        Pow256Widths();
        return GotField(DecodeFixed64Field(key, FromLittleEndian(data[..8]), schema), data[8..]);
      case 2 =>
        r := NextChunk(lib, key, data, schema);
      case 5 =>
        if |data| < 4 {
          return NoField;
        }
        FromLittleEndianBound(data[..4]);
        Pow256Widths();
        return GotField(DecodeFixed32Field(key, FromLittleEndian(data[..4]), schema), data[4..]);
      case _ => return NoField;
    }
  }

  method NextChunk(lib: Library, key: GoBytes, data: Bytes, schema: Option<Field>) returns (r: FieldResult)
    ensures r == ReadBody(lib, key, 2, data, schema)
  {
    var l := DecodeVarint(data);
    if l.Nothing? {
      return NoField;
    }
    var rest := data[l.size..];
    if |rest| < l.value {
      return NoField;
    }
    var child := DecodeLenField(lib, key, rest[..l.value], schema);
    if child.None? {
      return NoField;
    }
    return GotField(child.value, rest[l.value..]);
  }
}
