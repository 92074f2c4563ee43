/** Which numbers a Protobuf message puts on the wire: field numbers, wire types, and integers of any type. */
module ProtoNumbers {
  import opened ByteStrings
  import opened Conversions
  import opened Decimals
  import opened ProtoFields
  import opened ProtoMessages
  import opened Uir
  import opened Varints

  // ---------- field numbers ----------

  // A number that the annotation can be read as.
  predicate IsNumbered(field: Field) {
    field.protoNumber != [] && AreDigits(field.protoNumber) && DecimalValue(field.protoNumber) < TWO_64
  }

  // Field i has the number it is annotated with, or else i + 1.
  function NumberOfField(schema: seq<Field>, i: nat): nat
    requires i < |schema|
  {
    if IsNumbered(schema[i]) then DecimalValue(schema[i].protoNumber) else i + 1
  }

  lemma TagIsNumber(schema: seq<Field>, i: nat)
    requires i < |schema| && i + 1 < TWO_64
    ensures TagOf(schema, i) == NumberOfField(schema, i)
  {
    var s := schema[i].protoNumber;
    if IsNumbered(schema[i]) {
      ParseUintIff(s, DecimalValue(s));
    } else if ParseUint(s).Some? {
      ParseUintIff(s, ParseUint(s).value);
    }
  }

  // Without numbers in the schema all is well: the fields are numbered from 1.
  lemma UnnumberedTags(schema: seq<Field>)
    requires |schema| < MAX_TAG && forall f | f in schema :: f.protoNumber == []
    ensures GoodTags(schema) && forall i | 0 <= i < |schema| :: TagOf(schema, i) == i + 1
  {
    forall i | 0 <= i < |schema| ensures TagOf(schema, i) == i + 1 {
      assert schema[i] in schema;
      TagIsNumber(schema, i);
    }
  }

  // ---------- wire types ----------

  // How the scalar proto types are laid out on the wire: 0 varint, 1 eight bytes, 2 length-delimited, 5 four bytes.
  function WireType(p: ProtoType): Option<nat> {
    if p in {PInt32, PInt64, PUint32, PUint64, PSint32, PSint64, PBool, PEnum} then Some(0)
    else if p in {PFixed64, PSfixed64, PDouble} then Some(1)
    else if p in {PString, PBytes} then Some(2)
    else if p in {PFixed32, PSfixed32, PFloat} then Some(5)
    else None
  }

  // The first varint of the bytes is made of the field number and the wire type.
  predicate StartsWith(b: Bytes, number: nat, wire: nat) {
    wire < 8 && ReadVarint(b).Got? && ReadVarint(b).value == number * 8 + wire
  }

  ghost predicate HasNumber(b: Bytes, number: nat) {
    exists wire :: StartsWith(b, number, wire)
  }

  lemma KeyStarts(tag: uint64, wire: nat, body: Bytes, b: Bytes)
    requires tag < MAX_TAG && wire < 8 && b == Key(tag, wire) + body
    ensures StartsWith(b, tag, wire)
  {
    KeyReads(tag, wire, body, b);
  }

  lemma LenStarts(tag: uint64, payload: Bytes)
    requires tag < MAX_TAG
    ensures StartsWith(LenField(tag, payload), tag, 2)
  {
    Rejoin(Key(tag, 2), Varint(|payload|), payload);
    KeyStarts(tag, 2, Varint(|payload|) + payload, LenField(tag, payload));
  }

  // Proto types decide the wire type.
  lemma TypedStarts(lib: Library, tag: uint64, p: ProtoType, v: Value)
    requires tag < MAX_TAG
    ensures var b := ByProtoType(lib, tag, p, v);
            b.Some? ==> WireType(p).Some? && StartsWith(b.value, tag, WireType(p).value)
  {
    var b := ByProtoType(lib, tag, p, v);
    if b.Some? {
      var wire := WireType(p).value;
      if wire == 2 {
        LenStarts(tag, if p.PBytes? && v.Blob? then v.s else TextOf(v));
      } else {
        KeyStarts(tag, wire, b.value[|Key(tag, wire)|..], b.value);
      }
    }
  }

  // And so does the node's own type, where it is what decides.
  lemma NodeStarts(lib: Library, tag: uint64, t: ScalarType, v: Value)
    requires tag < MAX_TAG
    ensures var b := ByNodeType(lib, tag, t, v);
            b.Some? && b.value != [] ==> HasNumber(b.value, tag)
  {
    var b := ByNodeType(lib, tag, t, v);
    if b.Some? && b.value != [] {
      if t == TypeBytes || t in {TypeString, TypeTimestamp, TypeDate, TypeTime, TypeDuration, TypeDecimal} {
        LenStarts(tag, if t == TypeBytes then BlobOf(v) else TextOf(v));
      } else {
        var wire := if t in {TypeFixed64, TypeSFixed64, TypeFloat64} then 1 else 0;
        KeyStarts(tag, wire, b.value[|Key(tag, wire)|..], b.value);
      }
    }
  }

  // Whatever is written for a node starts with its number.
  lemma WrittenUnderNumber(lib: Library, tag: uint64, n: Field)
    requires tag < MAX_TAG
    ensures var b := EncodeField(lib, tag, n); b.Some? && b.value != [] ==> HasNumber(b.value, tag)
  {
    var p := if n.protoType.NoProtoType? then Infer(n.typ) else n.protoType;
    TypedStarts(lib, tag, p, n.value);
    NodeStarts(lib, tag, n.typ, n.value);
  }

  // Main result: field i of a schema is written under its number, ...
  lemma FieldHasItsNumber(lib: Library, schema: seq<Field>, i: nat, n: Field)
    requires i < |schema| < TWO_64 && TagOf(schema, i) < MAX_TAG
    ensures var b := EncodeField(lib, TagOf(schema, i), n);
            b.Some? && b.value != [] ==> HasNumber(b.value, NumberOfField(schema, i))
  {
    TagIsNumber(schema, i);
    WrittenUnderNumber(lib, TagOf(schema, i), n);
  }

  // ... and what stands under that number is read as that field.
  lemma NumberIsRead(lib: Library, schema: seq<Field>, i: nat, number: nat, wire: nat, body: Bytes)
    requires i < |schema| < TWO_64 && GoodTags(schema) && wire < 8 && number == NumberOfField(schema, i)
    ensures ReadField(lib, FieldsByTag(schema), Varint(number * 8 + wire) + body)
         == ReadBody(lib, schema[i].key, wire, body, Some(schema[i]))
  {
    TagIsNumber(schema, i);
    TagIsFound(schema, i);
    NumberedBody(lib, FieldsByTag(schema), number, wire, body);
  }

  lemma NumberedBody(lib: Library, byTag: map<uint64, Field>, tag: uint64, wire: nat, body: Bytes)
    requires tag in byTag && tag < MAX_TAG && wire < 8
    ensures ReadField(lib, byTag, Varint(tag * 8 + wire) + body) == ReadBody(lib, byTag[tag].key, wire, body, Some(byTag[tag]))
  {
    KeyIsVarint(tag, wire);
    KeyThenBody(lib, byTag, tag, wire, body, Key(tag, wire) + body);
  }

  lemma KeyIsVarint(tag: uint64, wire: nat)
    requires tag < MAX_TAG && wire < 8
    ensures Key(tag, wire) == Varint(tag * 8 + wire)
  {}

  // A field without number and the value 5 are the bytes 08 05.
  lemma FirstFieldIsOne(lib: Library, key: GoBytes)
    ensures var n := Field(key, TypeInt64, Int64(5), Present, NoProtoType, []);
            EncodeMessage(lib, [n], [n]) == Some([0x08, 0x05])
  {
    var n := Field(key, TypeInt64, Int64(5), Present, NoProtoType, []);
    var index := IndexOf([n]);
    assert [n][..0] == [] && index == map[key := 0];
    TagIsNumber([n], 0);
    assert EncodeField(lib, 1, n) == Some(Varint(8) + Varint(5)) && Varint(8) + Varint(5) == [8, 5];
    OnlyField(lib, n, [n], index);
  }

  lemma OnlyField(lib: Library, n: Field, list: seq<Field>, index: map<GoBytes, nat>)
    requires list == [n] && IsWritten(list, index, n) && Position(index, n) == Some(0) && EncodeField(lib, TagOf(list, 0), n).Some?
    ensures EncodeFrom(lib, list, index, list, 0) == EncodeField(lib, TagOf(list, 0), n)
  {
    var b := EncodeField(lib, TagOf(list, 0), n).value;
    assert WithMeta(n, n) == n && list[0 := n] == list;
    assert EncodeFrom(lib, list, index, list, 1) == Some([]) && b + [] == b;
  }
}
