/** Scalar fields on the Protobuf wire: how one field is written and read. */
module ProtoFields {
  import opened ByteStrings
  import opened Conversions
  import opened Decimals
  import opened Uir
  import opened Varints

  // The proto_type annotation.
  datatype ProtoType =
    | NoProtoType
    | PDouble | PFloat | PInt32 | PInt64 | PUint32 | PUint64 | PSint32 | PSint64
    | PFixed32 | PFixed64 | PSfixed32 | PSfixed64 | PBool | PString | PBytes
    | PEnum | OtherProtoType(name: Bytes)

  type ScalarType = t: UirType | t !in {TypeArray, TypeMap, TypeUnion, TypeInterface, TypeDefinition} witness TypeNull

  // A field of a flat schema or a value of a flat record, with the two annotations that matter here.
  datatype Field = Field(key: GoBytes, typ: ScalarType, value: Value, presence: Presence,
                         protoType: ProtoType, protoNumber: Bytes)

  // Conversions from floating point, names of enum values, and decoding without a schema.
  datatype Library = Library(floats: Floating, enumName: (Field, uint64) -> Option<GoBytes>,
                             guess: (GoBytes, Bytes, Option<Field>) -> Option<Field>)

  function NewField(t: ScalarType, key: GoBytes, v: Value, p: ProtoType, number: Bytes): Field {
    Field(key, t, v, if t == TypeNull then Null else Present, p, number)
  }

  // ---------- numbers ----------

  function ProtoTag(f: Field, fallback: uint64): uint64 {
    var n := ParseUint(f.protoNumber);
    if n.Some? then n.value else fallback
  }

  // ---------- writing ----------

  function Infer(t: ScalarType): ProtoType {
    match t
    case TypeSInt32 => PSint32
    case TypeSInt64 => PSint64
    case TypeFixed32 => PFixed32
    case TypeFixed64 => PFixed64
    case TypeSFixed32 => PSfixed32
    case TypeSFixed64 => PSfixed64
    case TypeFloat32 => PFloat
    case TypeFloat64 => PDouble
    case TypeBytes => PBytes
    case TypeString => PString
    case TypeBoolean => PBool
    case TypeUInt32 => PUint32
    case TypeUInt64 => PUint64
    case TypeInt32 => PInt32
    case TypeInt64 => PInt64
    case _ => NoProtoType
  }

  // tag<<3 | wire
  function Key(tag: uint64, wire: nat): Bytes {
    Varint((tag * 8) % TWO_64 + wire)
  }

  function VarintField(tag: uint64, v: uint64): Bytes {
    Key(tag, 0) + Varint(v)
  }

  function Fixed64Field(tag: uint64, v: uint64): Bytes {
    Key(tag, 1) + LittleEndian(8, v)
  }

  function Fixed32Field(tag: uint64, v: uint32): Bytes {
    Key(tag, 5) + LittleEndian(4, v)
  }

  function LenField(tag: uint64, payload: Bytes): Bytes {
    Key(tag, 2) + Varint(|payload|) + payload
  }

  function TextOf(v: Value): Bytes {
    if v.Str? then v.s else []
  }

  function BlobOf(v: Value): Bytes {
    if v.Blob? then v.s else []
  }

  function BoolField(tag: uint64, v: Value): Bytes {
    VarintField(tag, if v == Bool(true) then 1 else 0)
  }

  function FloatBits(lib: Library, v: Value): uint32 {
    match v case Float32(bits) => bits case Float64(bits) => lib.floats.toFloat32(bits) case _ => 0
  }

  function DoubleBits(v: Value): uint64 {
    if v.Float64? then v.bits else 0
  }

  // What is written for a proto type that decides the wire form.
  function ByProtoType(lib: Library, tag: uint64, p: ProtoType, v: Value): Option<Bytes> {
    match p
    case PSint32 => Some(VarintField(tag, ZigZag(AsInt64(lib.floats, v))))
    case PSint64 => Some(VarintField(tag, ZigZag(AsInt64(lib.floats, v))))
    case PFixed32 => Some(Fixed32Field(tag, AsUint64(lib.floats, v) % 0x1_0000_0000))
    case PSfixed32 => Some(Fixed32Field(tag, Wrap(AsInt64(lib.floats, v)) % 0x1_0000_0000))
    case PFixed64 => Some(Fixed64Field(tag, AsUint64(lib.floats, v)))
    case PSfixed64 => Some(Fixed64Field(tag, Wrap(AsInt64(lib.floats, v))))
    case PFloat => Some(Fixed32Field(tag, FloatBits(lib, v)))
    case PDouble => Some(Fixed64Field(tag, DoubleBits(v)))
    case PBool => Some(BoolField(tag, v))
    case PString => Some(LenField(tag, TextOf(v)))
    case PBytes => Some(LenField(tag, if v.Blob? then v.s else TextOf(v)))
    case _ => None
  }

  // What is written for any other proto type. None if the source annotates the node and calls itself.
  function ByNodeType(lib: Library, tag: uint64, t: ScalarType, v: Value): Option<Bytes> {
    if t in {TypeInt32, TypeInt64, TypeUInt32, TypeUInt64, TypeSInt32, TypeSInt64, TypeEnum} then
      Some(VarintField(tag, AsUint64(lib.floats, v)))
    else if t in {TypeFixed32, TypeSFixed32, TypeFloat32} then None
    else if t in {TypeFixed64, TypeSFixed64} then Some(Fixed64Field(tag, AsUint64(lib.floats, v)))
    else if t in {TypeString, TypeTimestamp, TypeDate, TypeTime, TypeDuration, TypeDecimal} then
      Some(LenField(tag, TextOf(v)))
    else if t == TypeBytes then Some(LenField(tag, BlobOf(v)))
    else if t == TypeBoolean then Some(BoolField(tag, v))
    else if t == TypeFloat64 then Some(Fixed64Field(tag, DoubleBits(v)))
    else Some([])
  }

  // None if the source does not return, see RunsOutIff.
  function EncodeField(lib: Library, tag: uint64, n: Field): Option<Bytes> {
    var p := if n.protoType.NoProtoType? then Infer(n.typ) else n.protoType;
    var b := ByProtoType(lib, tag, p, n.value);
    if b.Some? then b else ByNodeType(lib, tag, n.typ, n.value)
  }

  // The annotation the source sets before it calls itself on the node.
  function Annotated(n: Field): Field {
    n.(protoType := if n.protoType.NoProtoType? then PFixed32 else n.protoType)
  }

  // encodeProtoField as the source runs it, with a given number of calls; None if these do not suffice.
  function EncodeFieldIn(lib: Library, tag: uint64, n: Field, calls: nat): Option<Bytes>
    decreases calls
  {
    if calls == 0 then None
    else
      var p := if n.protoType.NoProtoType? then Infer(n.typ) else n.protoType;
      var b := ByProtoType(lib, tag, p, n.value);
      if b.Some? then b
      else
        var c := ByNodeType(lib, tag, n.typ, n.value);
        if c.Some? then c else EncodeFieldIn(lib, tag, Annotated(n), calls - 1)
  }

  // A 32-bit fixed or float node whose proto type is none of those that decide the wire form.
  predicate CallsItself(n: Field) {
    && n.typ in {TypeFixed32, TypeSFixed32, TypeFloat32}
    && (n.protoType in {PInt32, PInt64, PUint32, PUint64, PEnum} || n.protoType.OtherProtoType?)
  }

  // What one call does not settle no number of calls does.
  lemma {:induction false} MoreCallsDoNotHelp(lib: Library, tag: uint64, n: Field, calls: nat)
    requires calls > 0
    ensures EncodeFieldIn(lib, tag, n, calls) == EncodeField(lib, tag, n)
    ensures EncodeField(lib, tag, n).None? <==> CallsItself(n)
    decreases calls
  {
    if CallsItself(n) && calls > 1 {
      assert Annotated(n) == n;
      MoreCallsDoNotHelp(lib, tag, n, calls - 1);
    }
  }

  // Main result: the source never returns from a field - any number of calls runs out - exactly if the node is
  // a 32-bit fixed or float node with such a proto type.
  lemma RunsOutIff(lib: Library, tag: uint64, n: Field)
    ensures (forall calls :: EncodeFieldIn(lib, tag, n, calls).None?) <==> CallsItself(n)
  {
    MoreCallsDoNotHelp(lib, tag, n, 1);
    if CallsItself(n) {
      forall calls ensures EncodeFieldIn(lib, tag, n, calls).None? {
        if calls > 0 {
          MoreCallsDoNotHelp(lib, tag, n, calls);
        }
      }
    }
  }

  // ---------- reading ----------

  function TypeOfSchema(schema: Option<Field>): ProtoType {
    if schema.Some? then schema.value.protoType else NoProtoType
  }

  function KeyOfSchema(key: GoBytes, schema: Option<Field>): GoBytes {
    if schema.Some? then schema.value.key else key
  }

  // A node starts out with the type of its schema field, which fixes its presence.
  function DecodeVarintField(lib: Library, key: GoBytes, val: uint64, schema: Option<Field>): Field {
    var t: ScalarType := if schema.Some? then schema.value.typ else TypeInt64;
    var r := VarintValue(lib, val, schema, t);
    Field(KeyOfSchema(key, schema), r.typ, r.value, if t == TypeNull then Null else Present, TypeOfSchema(schema),
          if schema.Some? then schema.value.protoNumber else [])
  }

  datatype Typed = Typed(typ: ScalarType, value: Value)

  function VarintValue(lib: Library, val: uint64, schema: Option<Field>, t: ScalarType): Typed {
    match TypeOfSchema(schema)
    case PBool => Typed(TypeBoolean, Bool(val != 0))
    case PSint32 => Typed(TypeSInt32, Int32(ToInt32(Wrap(UnZigZag(val)))))
    case PSint64 => Typed(TypeSInt64, Int64(UnZigZag(val)))
    case PUint32 => Typed(TypeUInt32, Uint32(val % 0x1_0000_0000))
    case PUint64 => Typed(TypeUInt64, Uint64(val))
    case PInt32 => Typed(TypeInt32, Int32(ToInt32(val)))
    case PEnum =>
      var name := if schema.Some? then lib.enumName(schema.value, val) else None;
      Typed(TypeEnum, if name.Some? then Str(name.value) else Int32(ToInt32(val)))
    case _ =>
      if t == TypeBoolean then Typed(t, Bool(val != 0))
      else if t == TypeUInt32 then Typed(t, Uint32(val % 0x1_0000_0000))
      else if t == TypeUInt64 then Typed(t, Uint64(val))
      else if t == TypeInt32 then Typed(t, Int32(ToInt32(val)))
      else Typed(TypeInt64, Int64(ToInt64(val)))
  }

  function DecodeFixed64Field(key: GoBytes, bits: uint64, schema: Option<Field>): Field {
    var p, k := TypeOfSchema(schema), KeyOfSchema(key, schema);
    match p
    case PDouble => NewField(TypeFloat64, k, Float64(bits), p, [])
    case PFixed64 => NewField(TypeFixed64, k, Uint64(bits), p, [])
    case PSfixed64 => NewField(TypeSFixed64, k, Int64(ToInt64(bits)), p, [])
    case _ => NewField(TypeFloat64, k, Float64(bits), NoProtoType, [])
  }

  function DecodeFixed32Field(key: GoBytes, bits: uint32, schema: Option<Field>): Field {
    var k := KeyOfSchema(key, schema);
    var p := if schema.None? then NoProtoType
             else if schema.value.protoType.NoProtoType? then Infer(schema.value.typ) else schema.value.protoType;
    match p
    case PFloat => NewField(TypeFloat32, k, Float32(bits), p, [])
    case PSfixed32 => NewField(TypeSFixed32, k, Int32(ToInt32(bits)), p, [])
    case _ => NewField(TypeFixed32, k, Uint32(bits), p, [])
  }

  function DecodeLenField(lib: Library, key: GoBytes, chunk: GoBytes, schema: Option<Field>): Option<Field> {
    var p, k := TypeOfSchema(schema), KeyOfSchema(key, schema);
    match p
    case PString => Some(NewField(TypeString, k, Str(chunk), p, []))
    case PBytes => Some(NewField(TypeBytes, k, Blob(chunk), p, []))
    case _ => lib.guess(k, chunk, schema)
  }

  datatype FieldResult = NoField | GotField(field: Field, rest: Bytes)

  // One field from the front of the data. A length of 2^63 or more makes the source slice out of range.
  function ReadField(lib: Library, byTag: map<uint64, Field>, s: Bytes): (r: FieldResult)
    ensures r.GotField? ==> |r.rest| < |s|
  {
    var k := ReadVarint(s);
    if k.Nothing? then NoField else ReadTagged(lib, byTag, k.value / 8, k.value % 8, s[k.size..])
  }

  // A field whose number and wire type are known.
  function ReadTagged(lib: Library, byTag: map<uint64, Field>, tag: uint64, wire: nat, s: Bytes): (r: FieldResult)
    requires tag <= MAX_INT64
    ensures r.GotField? ==> |r.rest| <= |s|
  {
    var schema := if tag in byTag then Some(byTag[tag]) else None;
    ReadBody(lib, TagName(tag, schema), wire, s, schema)
  }

  // The key of a field: its name, or its number.
  function TagName(tag: uint64, schema: Option<Field>): GoBytes
    requires tag <= MAX_INT64
  {
    if schema.Some? then schema.value.key else Decimal(tag)
  }

  function ReadBody(lib: Library, key: GoBytes, wire: nat, s: Bytes, schema: Option<Field>): (r: FieldResult)
    ensures r.GotField? ==> |r.rest| <= |s|
  {
    if wire == 0 then
      var v := ReadVarint(s);
      if v.Nothing? then NoField else GotField(DecodeVarintField(lib, key, v.value, schema), s[v.size..])
    else if wire == 1 then
      if |s| < 8 then NoField
      else
        FromLittleEndianBound(s[..8]);
        Pow256Widths();
        GotField(DecodeFixed64Field(key, FromLittleEndian(s[..8]), schema), s[8..])
    else if wire == 2 then
      var l := ReadVarint(s);
      if l.Nothing? || |s[l.size..]| < l.value then NoField
      else
        var field := DecodeLenField(lib, key, s[l.size..][..l.value], schema);
        if field.None? then NoField else GotField(field.value, s[l.size..][l.value..])
    else if wire == 5 then
      if |s| < 4 then NoField
      else
        FromLittleEndianBound(s[..4]);
        Pow256Widths();
        GotField(DecodeFixed32Field(key, FromLittleEndian(s[..4]), schema), s[4..])
    else NoField
  }

  // ---------- a well-typed field comes back ----------

  // The node type of a scalar proto type.
  function TypeOf(p: ProtoType): Option<ScalarType> {
    match p
    case PDouble => Some(TypeFloat64)
    case PFloat => Some(TypeFloat32)
    case PInt32 => Some(TypeInt32)
    case PInt64 => Some(TypeInt64)
    case PUint32 => Some(TypeUInt32)
    case PUint64 => Some(TypeUInt64)
    case PSint32 => Some(TypeSInt32)
    case PSint64 => Some(TypeSInt64)
    case PFixed32 => Some(TypeFixed32)
    case PFixed64 => Some(TypeFixed64)
    case PSfixed32 => Some(TypeSFixed32)
    case PSfixed64 => Some(TypeSFixed64)
    case PBool => Some(TypeBoolean)
    case PString => Some(TypeString)
    case PBytes => Some(TypeBytes)
    case _ => None
  }

  // A value of the dynamic type that a scalar proto type stands for.
  predicate HasValue(p: ProtoType, v: Value) {
    match p
    case PDouble => v.Float64?
    case PFloat => v.Float32?
    case PBool => v.Bool?
    case PString => v.Str?
    case PBytes => v.Blob?
    case PInt64 => v.Int64?
    case PSint64 => v.Int64?
    case PSfixed64 => v.Int64?
    case PUint32 => v.Uint32?
    case PFixed32 => v.Uint32?
    case PUint64 => v.Uint64?
    case PFixed64 => v.Uint64?
    case _ => v.Int32?
  }

  // A scalar field of a schema, and a node that is a value for it.
  predicate WellTyped(schema: Field, n: Field) {
    && TypeOf(schema.protoType) == Some(schema.typ) && n.typ == schema.typ && n.protoType == schema.protoType
    && HasValue(n.protoType, n.value)
  }

  // The same value under the name the schema has for it.
  ghost predicate Restores(r: Field, schema: Field, n: Field) {
    r.key == schema.key && r.typ == n.typ && r.value == n.value && r.protoType == schema.protoType
  }

  const MAX_TAG: uint64 := 0x2000_0000_0000_0000

  lemma KeyReads(tag: uint64, wire: nat, rest: Bytes, s: Bytes)
    requires tag < MAX_TAG && wire < 8 && s == Key(tag, wire) + rest
    ensures ReadVarint(s) == Got(tag * 8 + wire, |Key(tag, wire)|) && s[|Key(tag, wire)|..] == rest
  {
    assert Key(tag, wire) == Varint(tag * 8 + wire);
    VarintRoundTrip(tag * 8 + wire, rest);
    Behind(Key(tag, wire), rest);
  }

  lemma Behind(a: Bytes, b: Bytes)
    ensures (a + b)[|a|..] == b
  {}

  lemma KeySplits(tag: nat, wire: nat)
    requires wire < 8
    ensures (tag * 8 + wire) / 8 == tag && (tag * 8 + wire) % 8 == wire
  {}

  // Behind the key of a known field its body is read.
  lemma KeyThenBody(lib: Library, byTag: map<uint64, Field>, tag: uint64, wire: nat, body: Bytes, s: Bytes)
    requires tag in byTag && tag < MAX_TAG && wire < 8 && s == Key(tag, wire) + body
    ensures ReadField(lib, byTag, s) == ReadBody(lib, byTag[tag].key, wire, body, Some(byTag[tag]))
  {
    KeyReads(tag, wire, body, s);
    KeySplits(tag, wire);
    TagIsRead(lib, byTag, tag, wire, tag * 8 + wire, s, |Key(tag, wire)|);
  }

  lemma TagIsRead(lib: Library, byTag: map<uint64, Field>, tag: uint64, wire: nat, key: uint64, s: Bytes, size: nat)
    requires tag < MAX_TAG && key / 8 == tag && key % 8 == wire && ReadVarint(s) == Got(key, size)
    ensures size <= |s| && ReadField(lib, byTag, s) == ReadTagged(lib, byTag, tag, wire, s[size..])
  {}

  lemma VarintFieldReads(lib: Library, byTag: map<uint64, Field>, tag: uint64, v: uint64, rest: Bytes)
    requires tag in byTag && tag < MAX_TAG
    ensures ReadField(lib, byTag, VarintField(tag, v) + rest)
         == GotField(DecodeVarintField(lib, byTag[tag].key, v, Some(byTag[tag])), rest)
  {
    Rejoin(Key(tag, 0), Varint(v), rest);
    KeyThenBody(lib, byTag, tag, 0, Varint(v) + rest, VarintField(tag, v) + rest);
    VarintRoundTrip(v, rest);
    assert (Varint(v) + rest)[|Varint(v)|..] == rest;
  }

  lemma Fixed64FieldReads(lib: Library, byTag: map<uint64, Field>, tag: uint64, v: uint64, rest: Bytes)
    requires tag in byTag && tag < MAX_TAG
    ensures ReadField(lib, byTag, Fixed64Field(tag, v) + rest)
         == GotField(DecodeFixed64Field(byTag[tag].key, v, Some(byTag[tag])), rest)
  {
    var b := LittleEndian(8, v);
    Rejoin(Key(tag, 1), b, rest);
    KeyThenBody(lib, byTag, tag, 1, b + rest, Fixed64Field(tag, v) + rest);
    Uint64Reads(v);
    assert (b + rest)[..8] == b && (b + rest)[8..] == rest;
  }

  lemma Fixed32FieldReads(lib: Library, byTag: map<uint64, Field>, tag: uint64, v: uint32, rest: Bytes)
    requires tag in byTag && tag < MAX_TAG
    ensures ReadField(lib, byTag, Fixed32Field(tag, v) + rest)
         == GotField(DecodeFixed32Field(byTag[tag].key, v, Some(byTag[tag])), rest)
  {
    var b := LittleEndian(4, v);
    Rejoin(Key(tag, 5), b, rest);
    KeyThenBody(lib, byTag, tag, 5, b + rest, Fixed32Field(tag, v) + rest);
    Uint32Reads(v);
    assert (b + rest)[..4] == b && (b + rest)[4..] == rest;
  }

  lemma LenFieldReads(lib: Library, byTag: map<uint64, Field>, tag: uint64, payload: GoBytes, rest: Bytes)
    requires tag in byTag && tag < MAX_TAG
    requires byTag[tag].protoType == PString || byTag[tag].protoType == PBytes
    ensures var field := DecodeLenField(lib, byTag[tag].key, payload, Some(byTag[tag]));
            field.Some? && ReadField(lib, byTag, LenField(tag, payload) + rest) == GotField(field.value, rest)
  {
    var l := Varint(|payload|);
    var body := l + (payload + rest);
    Regrouped(Key(tag, 2), l, payload, rest);
    KeyThenBody(lib, byTag, tag, 2, body, LenField(tag, payload) + rest);
    LenBodyReads(lib, byTag[tag], payload, rest, body);
  }

  lemma Regrouped(a: Bytes, b: Bytes, c: Bytes, d: Bytes)
    ensures (a + b + c) + d == a + (b + (c + d))
  {}

  lemma LenBodyReads(lib: Library, schema: Field, payload: GoBytes, rest: Bytes, body: Bytes)
    requires schema.protoType == PString || schema.protoType == PBytes
    requires body == Varint(|payload|) + (payload + rest)
    ensures var field := DecodeLenField(lib, schema.key, payload, Some(schema));
            field.Some? && ReadBody(lib, schema.key, 2, body, Some(schema)) == GotField(field.value, rest)
  {
    VarintRoundTrip(|payload|, payload + rest);
    Behind(Varint(|payload|), payload + rest);
    ChunkIsRead(lib, schema.key, Some(schema), payload, rest, body, |Varint(|payload|)|);
  }

  lemma ChunkIsRead(lib: Library, key: GoBytes, schema: Option<Field>, payload: GoBytes, rest: Bytes, body: Bytes, size: nat)
    requires ReadVarint(body) == Got(|payload|, size) && size <= |body| && body[size..] == payload + rest
    ensures var field := DecodeLenField(lib, key, payload, schema);
            ReadBody(lib, key, 2, body, schema) == if field.None? then NoField else GotField(field.value, rest)
  {
    Behind(payload, rest);
    InFront(payload, rest);
  }

  lemma InFront(a: Bytes, b: Bytes)
    ensures (a + b)[..|a|] == a
  {}

  ghost predicate ComesBack(lib: Library, byTag: map<uint64, Field>, tag: uint64, n: Field, rest: Bytes)
    requires tag in byTag
  {
    var b := EncodeField(lib, tag, n);
    b.Some? && var r := ReadField(lib, byTag, b.value + rest);
    r.GotField? && r.rest == rest && Restores(r.field, byTag[tag], n)
  }

  // Main result for one field: whatever follows, a well-typed value of any scalar kind is read back with
  // its type and value.
  lemma FieldComesBack(lib: Library, byTag: map<uint64, Field>, tag: uint64, n: Field, rest: Bytes)
    requires tag in byTag && tag < MAX_TAG && WellTyped(byTag[tag], n)
    ensures ComesBack(lib, byTag, tag, n, rest)
  {
    var p := n.protoType;
    if p in {PInt32, PInt64, PUint32, PUint64} {
      IntegerComesBack(lib, byTag, tag, n, rest);
    } else if p in {PSint32, PSint64} {
      ZigZagComesBack(lib, byTag, tag, n, rest);
    } else if p in {PDouble, PFixed64, PSfixed64} {
      Fixed64ComesBack(lib, byTag, tag, n, rest);
    } else if p in {PFloat, PFixed32, PSfixed32} {
      Fixed32ComesBack(lib, byTag, tag, n, rest);
    } else if p.PBool? {
      VarintFieldReads(lib, byTag, tag, if n.value.b then 1 else 0, rest);
    } else {
      LenFieldReads(lib, byTag, tag, n.value.s, rest);
    }
  }

  lemma IntegerComesBack(lib: Library, byTag: map<uint64, Field>, tag: uint64, n: Field, rest: Bytes)
    requires tag in byTag && tag < MAX_TAG && WellTyped(byTag[tag], n)
    requires n.protoType in {PInt32, PInt64, PUint32, PUint64}
    ensures ComesBack(lib, byTag, tag, n, rest)
  {
    var v := AsUint64(lib.floats, n.value);
    VarintFieldReads(lib, byTag, tag, v, rest);
    IntegerRestores(lib, byTag[tag], n, v);
    IntegerIsVarint(lib, tag, n);
  }

  lemma IntegerIsVarint(lib: Library, tag: uint64, n: Field)
    requires n.protoType in {PInt32, PInt64, PUint32, PUint64} && n.typ in {TypeInt32, TypeInt64, TypeUInt32, TypeUInt64}
    ensures EncodeField(lib, tag, n) == Some(VarintField(tag, AsUint64(lib.floats, n.value)))
  {}

  lemma IntegerRestores(lib: Library, schema: Field, n: Field, v: uint64)
    requires WellTyped(schema, n) && n.protoType in {PInt32, PInt64, PUint32, PUint64} && v == AsUint64(lib.floats, n.value)
    ensures Restores(DecodeVarintField(lib, schema.key, v, Some(schema)), schema, n)
  {
    if n.protoType.PInt32? {
      Narrows(n.value.i32);
    } else if n.protoType.PInt64? {
      Narrows(n.value.i);
    }
  }

  lemma ZigZagComesBack(lib: Library, byTag: map<uint64, Field>, tag: uint64, n: Field, rest: Bytes)
    requires tag in byTag && tag < MAX_TAG && WellTyped(byTag[tag], n) && n.protoType in {PSint32, PSint64}
    ensures ComesBack(lib, byTag, tag, n, rest)
  {
    var i := AsInt64(lib.floats, n.value);
    VarintFieldReads(lib, byTag, tag, ZigZag(i), rest);
    ZigZagRoundTrip(i, 0);
    Narrows(i);
  }

  // The bits of a fixed-width value.
  function FixedBits(v: Value): uint64 {
    match v
    case Float64(bits) => bits
    case Float32(bits) => bits
    case Uint64(u) => u
    case Uint32(u) => u
    case Int64(i) => Wrap(i)
    case Int32(i) => Wrap(i) % 0x1_0000_0000
    case _ => 0
  }

  lemma Fixed64ComesBack(lib: Library, byTag: map<uint64, Field>, tag: uint64, n: Field, rest: Bytes)
    requires tag in byTag && tag < MAX_TAG && WellTyped(byTag[tag], n)
    requires n.protoType in {PDouble, PFixed64, PSfixed64}
    ensures ComesBack(lib, byTag, tag, n, rest)
  {
    Fixed64FieldReads(lib, byTag, tag, FixedBits(n.value), rest);
    Fixed64Restores(lib, tag, byTag[tag], n);
  }

  lemma Fixed64Restores(lib: Library, tag: uint64, schema: Field, n: Field)
    requires WellTyped(schema, n) && n.protoType in {PDouble, PFixed64, PSfixed64}
    ensures EncodeField(lib, tag, n) == Some(Fixed64Field(tag, FixedBits(n.value)))
    ensures Restores(DecodeFixed64Field(schema.key, FixedBits(n.value), Some(schema)), schema, n)
  {
    if n.value.Int64? {
      Narrows(n.value.i);
    }
  }

  lemma Fixed32ComesBack(lib: Library, byTag: map<uint64, Field>, tag: uint64, n: Field, rest: Bytes)
    requires tag in byTag && tag < MAX_TAG && WellTyped(byTag[tag], n)
    requires n.protoType in {PFloat, PFixed32, PSfixed32}
    ensures ComesBack(lib, byTag, tag, n, rest)
  {
    Fixed32IsLow(lib, tag, n);
    Fixed32FieldReads(lib, byTag, tag, FixedBits(n.value), rest);
    Fixed32Restores(byTag[tag], n);
  }

  lemma Fixed32IsLow(lib: Library, tag: uint64, n: Field)
    requires n.protoType in {PFloat, PFixed32, PSfixed32} && HasValue(n.protoType, n.value)
    ensures FixedBits(n.value) < TWO_32 && EncodeField(lib, tag, n) == Some(Fixed32Field(tag, FixedBits(n.value)))
  {}

  lemma Fixed32Restores(schema: Field, n: Field)
    requires WellTyped(schema, n) && n.protoType in {PFloat, PFixed32, PSfixed32} && FixedBits(n.value) < TWO_32
    ensures Restores(DecodeFixed32Field(schema.key, FixedBits(n.value), Some(schema)), schema, n)
  {
    if n.value.Int32? {
      Narrows(n.value.i32);
    }
  }
}
