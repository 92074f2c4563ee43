/** What becomes of integers that do not have the type their field asks for, and of fields without proto types. */
module ProtoIntegers {
  import opened ByteStrings
  import opened Conversions
  import Decimals
  import opened ProtoFields
  import opened Uir
  import opened Varints

  // ---------- any integer under any integer proto type ----------

  predicate IsShort(p: ProtoType) {
    p in {PInt32, PUint32, PSint32, PFixed32, PSfixed32}
  }

  predicate IsLong(p: ProtoType) {
    p in {PInt64, PUint64, PSint64, PFixed64, PSfixed64}
  }

  function Modulus(p: ProtoType): (m: int)
    ensures m > 0
  {
    if IsShort(p) then 0x1_0000_0000 else 0x1_0000_0000_0000_0000
  }

  predicate IsUnsigned(p: ProtoType) {
    p in {PUint32, PUint64, PFixed32, PFixed64}
  }

  // The numbers a proto type has room for.
  predicate Holds(p: ProtoType, i: int) {
    if IsUnsigned(p) then 0 <= i < Modulus(p) else -Modulus(p) <= 2 * i < Modulus(p)
  }

  // An integer, and a type of its node under which the proto type decides the wire form or both mean varints.
  predicate IsIntegerFor(n: Field) {
    && (IsShort(n.protoType) || IsLong(n.protoType)) && IsWhole(n.value)
    && (n.protoType in {PInt32, PInt64, PUint32, PUint64} ==>
          n.typ in {TypeInt32, TypeInt64, TypeUInt32, TypeUInt64, TypeSInt32, TypeSInt64, TypeEnum})
  }

  // A field of this proto type, as a schema declares it.
  predicate IsSchemaOf(schema: Field, n: Field) {
    schema.protoType == n.protoType && TypeOf(schema.protoType) == Some(schema.typ)
  }

  ghost predicate GivesNumber(r: FieldResult, rest: Bytes, p: ProtoType, i: int) {
    && r.GotField? && r.rest == rest && IsWhole(r.field.value)
    && Congruent(NumberOf(r.field.value), i, Modulus(p)) && Holds(p, NumberOf(r.field.value))
    && (Holds(p, i) ==> NumberOf(r.field.value) == i)
  }

  // Main result: an integer of any type comes back as a number that its field's type has room for, the same modulo 2^32
  // or 2^64, and the very same if there is room for it.
  lemma NumberComesBack(lib: Library, byTag: map<uint64, Field>, tag: uint64, n: Field, rest: Bytes)
    requires tag in byTag && tag < MAX_TAG && IsSchemaOf(byTag[tag], n) && IsIntegerFor(n)
    ensures EncodeField(lib, tag, n).Some?
    ensures GivesNumber(ReadField(lib, byTag, EncodeField(lib, tag, n).value + rest), rest, n.protoType, NumberOf(n.value))
  {
    var p, key, schema := n.protoType, byTag[tag].key, byTag[tag];
    AsInt64IsCongruent(lib.floats, n.value);
    AsUint64IsCongruent(lib.floats, n.value);
    var i, u := AsInt64(lib.floats, n.value), AsUint64(lib.floats, n.value);
    if p in {PSint32, PSint64} {
      VarintFieldReads(lib, byTag, tag, ZigZag(i), rest);
      ZigZagNumber(lib, key, schema, i, NumberOf(n.value));
    } else if p in {PFixed32, PSfixed32} {
      Fixed32Number(lib, byTag, tag, n, rest);
    } else if p in {PFixed64, PSfixed64} {
      Fixed64Number(lib, byTag, tag, n, rest);
    } else {
      VarintFieldReads(lib, byTag, tag, u, rest);
      VarintNumber(lib, key, schema, u, NumberOf(n.value));
    }
  }

  ghost predicate IsNumber(v: Value, p: ProtoType, i: int) {
    && IsWhole(v) && Congruent(NumberOf(v), i, Modulus(p)) && Holds(p, NumberOf(v)) && (Holds(p, i) ==> NumberOf(v) == i)
  }

  // A congruent number that fits is the same number.
  lemma CongruentIsNumber(v: Value, p: ProtoType, u: int, i: int)
    requires IsWhole(v) && Holds(p, NumberOf(v)) && (IsShort(p) || IsLong(p))
    requires Congruent(NumberOf(v), u, Modulus(p)) && Congruent(u, i, 0x1_0000_0000_0000_0000)
    ensures IsNumber(v, p, i)
  {
    if IsShort(p) {
      CongruentBelow(u, i);
    }
    CongruentTwice(NumberOf(v), u, i, Modulus(p));
    if Holds(p, i) {
      CongruentAndClose(NumberOf(v), i, Modulus(p));
    }
  }

  lemma VarintNumber(lib: Library, key: GoBytes, schema: Field, u: uint64, i: int)
    requires schema.protoType in {PInt32, PInt64, PUint32, PUint64} && TypeOf(schema.protoType) == Some(schema.typ)
    requires Congruent(u, i, 0x1_0000_0000_0000_0000)
    ensures IsNumber(DecodeVarintField(lib, key, u, Some(schema)).value, schema.protoType, i)
  {
    NarrowIsCongruent(u);
    CongruentIsNumber(DecodeVarintField(lib, key, u, Some(schema)).value, schema.protoType, u, i);
  }

  lemma ZigZagNumber(lib: Library, key: GoBytes, schema: Field, j: int64, i: int)
    requires schema.protoType in {PSint32, PSint64} && Congruent(j, i, 0x1_0000_0000_0000_0000)
    ensures IsNumber(DecodeVarintField(lib, key, ZigZag(j), Some(schema)).value, schema.protoType, i)
  {
    ZigZagRoundTrip(j, 0);
    NarrowIsCongruent(Wrap(j));
    WrapIsCongruent(j);
    var v := DecodeVarintField(lib, key, ZigZag(j), Some(schema)).value;
    CongruentTwice(Wrap(j), j, i, 0x1_0000_0000_0000_0000);
    CongruentIsNumber(v, schema.protoType, if schema.protoType.PSint32? then Wrap(j) else j, i);
  }

  lemma Fixed32Number(lib: Library, byTag: map<uint64, Field>, tag: uint64, n: Field, rest: Bytes)
    requires tag in byTag && tag < MAX_TAG && IsSchemaOf(byTag[tag], n) && IsIntegerFor(n)
    requires n.protoType in {PFixed32, PSfixed32}
    ensures EncodeField(lib, tag, n).Some?
    ensures GivesNumber(ReadField(lib, byTag, EncodeField(lib, tag, n).value + rest), rest, n.protoType, NumberOf(n.value))
  {
    var u := FixedSource(lib, n);
    SourceIsCongruent(lib, n.value);
    FixedIsWritten(lib, tag, n);
    Fixed32FieldReads(lib, byTag, tag, u % 0x1_0000_0000, rest);
    Fixed32Value(byTag[tag].key, byTag[tag], u, NumberOf(n.value));
  }

  // The 64 bits that a fixed-width field is taken from.
  function FixedSource(lib: Library, n: Field): uint64 {
    if n.protoType in {PFixed32, PFixed64} then AsUint64(lib.floats, n.value) else Wrap(AsInt64(lib.floats, n.value))
  }

  lemma FixedIsWritten(lib: Library, tag: uint64, n: Field)
    requires IsWhole(n.value)
    ensures n.protoType in {PFixed32, PSfixed32} ==>
              EncodeField(lib, tag, n) == Some(Fixed32Field(tag, FixedSource(lib, n) % 0x1_0000_0000))
    ensures n.protoType in {PFixed64, PSfixed64} ==> EncodeField(lib, tag, n) == Some(Fixed64Field(tag, FixedSource(lib, n)))
  {}

  lemma Fixed32Value(key: GoBytes, schema: Field, u: uint64, i: int)
    requires schema.protoType in {PFixed32, PSfixed32} && Congruent(u, i, 0x1_0000_0000_0000_0000)
    ensures IsNumber(DecodeFixed32Field(key, u % 0x1_0000_0000, Some(schema)).value, schema.protoType, i)
  {
    var low := u % 0x1_0000_0000;
    Fixed32Holds(key, schema, low);
    NarrowTwice(u, low);
    CongruentIsNumber(DecodeFixed32Field(key, low, Some(schema)).value, schema.protoType, u, i);
  }

  lemma NarrowTwice(u: uint64, low: uint32)
    requires low == u % 0x1_0000_0000
    ensures Congruent(low, u, 0x1_0000_0000) && Congruent(ToInt32(low), u, 0x1_0000_0000)
  {
    NarrowIsCongruent(u);
    NarrowIsCongruent(low);
    CongruentTwice(ToInt32(low), low, u, 0x1_0000_0000);
  }

  lemma Fixed32Holds(key: GoBytes, schema: Field, low: uint32)
    requires schema.protoType in {PFixed32, PSfixed32}
    ensures var v := DecodeFixed32Field(key, low, Some(schema)).value;
            v == (if schema.protoType.PFixed32? then Uint32(low) else Int32(ToInt32(low))) && Holds(schema.protoType, NumberOf(v))
  {}

  lemma Fixed64Value(key: GoBytes, schema: Field, u: uint64, i: int)
    requires schema.protoType in {PFixed64, PSfixed64} && Congruent(u, i, 0x1_0000_0000_0000_0000)
    ensures IsNumber(DecodeFixed64Field(key, u, Some(schema)).value, schema.protoType, i)
  {
    NarrowIsCongruent(u);
    CongruentIsNumber(DecodeFixed64Field(key, u, Some(schema)).value, schema.protoType, u, i);
  }

  lemma Fixed64Number(lib: Library, byTag: map<uint64, Field>, tag: uint64, n: Field, rest: Bytes)
    requires tag in byTag && tag < MAX_TAG && IsSchemaOf(byTag[tag], n) && IsIntegerFor(n)
    requires n.protoType in {PFixed64, PSfixed64}
    ensures EncodeField(lib, tag, n).Some?
    ensures GivesNumber(ReadField(lib, byTag, EncodeField(lib, tag, n).value + rest), rest, n.protoType, NumberOf(n.value))
  {
    var u := FixedSource(lib, n);
    SourceIsCongruent(lib, n.value);
    FixedIsWritten(lib, tag, n);
    Fixed64FieldReads(lib, byTag, tag, u, rest);
    Fixed64Value(byTag[tag].key, byTag[tag], u, NumberOf(n.value));
  }

  lemma WrapIsCongruent(j: int64)
    ensures Congruent(Wrap(j), j, 0x1_0000_0000_0000_0000)
  {}

  // The unsigned and the wrapped signed reading of a value.
  lemma SourceIsCongruent(lib: Library, v: Value)
    requires IsWhole(v)
    ensures Congruent(AsUint64(lib.floats, v), NumberOf(v), 0x1_0000_0000_0000_0000)
    ensures Congruent(Wrap(AsInt64(lib.floats, v)), NumberOf(v), 0x1_0000_0000_0000_0000)
  {
    AsUint64IsCongruent(lib.floats, v);
    AsInt64IsCongruent(lib.floats, v);
    var j := AsInt64(lib.floats, v);
    WrapIsCongruent(j);
    CongruentTwice(Wrap(j), j, NumberOf(v), 0x1_0000_0000_0000_0000);
  }

  // ---------- any value under the other proto types ----------

  // What is left of a value: a boolean, text or double only of its own type, bytes also of a text, and a float of either
  // floating-point type.
  function LeftOf(lib: Library, p: ProtoType, v: Value): Value {
    match p
    case PBool => Bool(v.Bool? && v.b)
    case PString => Str(if v.Str? then v.s else [])
    case PBytes => Blob(if v.Blob? || v.Str? then v.s else [])
    case PFloat => Float32(if v.Float32? then v.bits32 else if v.Float64? then lib.floats.toFloat32(v.bits) else 0)
    case _ => Float64(if v.Float64? then v.bits else 0)
  }

  ghost predicate GivesValue(r: FieldResult, rest: Bytes, v: Value) {
    r.GotField? && r.rest == rest && r.field.value == v
  }

  lemma OtherValueComesBack(lib: Library, byTag: map<uint64, Field>, tag: uint64, n: Field, rest: Bytes)
    requires tag in byTag && tag < MAX_TAG && IsSchemaOf(byTag[tag], n) && n.protoType in {PBool, PString, PBytes, PFloat, PDouble}
    ensures EncodeField(lib, tag, n).Some?
    ensures GivesValue(ReadField(lib, byTag, EncodeField(lib, tag, n).value + rest), rest, LeftOf(lib, n.protoType, n.value))
  {
    var p, left := n.protoType, LeftOf(lib, n.protoType, n.value);
    LeftIsWritten(lib, tag, n, left);
    if p.PBool? {
      VarintFieldReads(lib, byTag, tag, if left.b then 1 else 0, rest);
    } else if p.PFloat? {
      Fixed32FieldReads(lib, byTag, tag, left.bits32, rest);
    } else if p.PDouble? {
      Fixed64FieldReads(lib, byTag, tag, left.bits, rest);
    } else {
      LenFieldReads(lib, byTag, tag, left.s, rest);
    }
  }

  lemma LeftIsWritten(lib: Library, tag: uint64, n: Field, left: Value)
    requires n.protoType in {PBool, PString, PBytes, PFloat, PDouble} && left == LeftOf(lib, n.protoType, n.value)
    ensures EncodeField(lib, tag, n) == Some(
              if left.Bool? then VarintField(tag, if left.b then 1 else 0)
              else if left.Float32? then Fixed32Field(tag, left.bits32)
              else if left.Float64? then Fixed64Field(tag, left.bits)
              else LenField(tag, left.s))
  {}

  ghost predicate GivesEnum(f: Field, name: Option<GoBytes>, i: int) {
    && f.typ == TypeEnum
    && if name.Some? then f.value == Str(name.value) else f.value.Int32? && Congruent(f.value.i32, i, 0x1_0000_0000)
  }

  // An enum value that is a number comes back under the name the schema has for it, or else as the number modulo 2^32.
  lemma EnumComesBack(lib: Library, byTag: map<uint64, Field>, tag: uint64, n: Field, rest: Bytes)
    requires tag in byTag && tag < MAX_TAG && byTag[tag].protoType.PEnum? && n.protoType.PEnum? && IsWhole(n.value)
    requires n.typ in {TypeInt32, TypeInt64, TypeUInt32, TypeUInt64, TypeSInt32, TypeSInt64, TypeEnum}
    ensures EncodeField(lib, tag, n).Some?
    ensures var r := ReadField(lib, byTag, EncodeField(lib, tag, n).value + rest);
            && r.GotField? && r.rest == rest
            && GivesEnum(r.field, lib.enumName(byTag[tag], AsUint64(lib.floats, n.value)), NumberOf(n.value))
  {
    var u := AsUint64(lib.floats, n.value);
    EnumIsVarint(lib, tag, n);
    VarintFieldReads(lib, byTag, tag, u, rest);
    AsUint64IsCongruent(lib.floats, n.value);
    EnumIsRead(lib, byTag[tag], u, NumberOf(n.value));
  }

  lemma EnumIsVarint(lib: Library, tag: uint64, n: Field)
    requires n.protoType.PEnum? && n.typ in {TypeInt32, TypeInt64, TypeUInt32, TypeUInt64, TypeSInt32, TypeSInt64, TypeEnum}
    ensures EncodeField(lib, tag, n) == Some(VarintField(tag, AsUint64(lib.floats, n.value)))
  {}

  lemma EnumIsRead(lib: Library, schema: Field, u: uint64, i: int)
    requires schema.protoType.PEnum? && Congruent(u, i, 0x1_0000_0000_0000_0000)
    ensures GivesEnum(DecodeVarintField(lib, schema.key, u, Some(schema)), lib.enumName(schema, u), i)
  {
    CongruentBelow(u, i);
    NarrowIsCongruent(u);
    CongruentTwice(ToInt32(u), u, i, 0x1_0000_0000);
  }

  // ---------- fields without proto types ----------

  // A number or boolean of the dynamic type that its node's type stands for.
  predicate IsTyped(t: ScalarType, v: Value) {
    match t
    case TypeInt32 => v.Int32?
    case TypeSInt32 => v.Int32?
    case TypeSFixed32 => v.Int32?
    case TypeInt64 => v.Int64?
    case TypeSInt64 => v.Int64?
    case TypeSFixed64 => v.Int64?
    case TypeUInt32 => v.Uint32?
    case TypeFixed32 => v.Uint32?
    case TypeUInt64 => v.Uint64?
    case TypeFixed64 => v.Uint64?
    case TypeFloat32 => v.Float32?
    case TypeFloat64 => v.Float64?
    case TypeBoolean => v.Bool?
    case _ => false
  }

  // The types whose wire form the reader does not know again without a proto type.
  predicate IsForgotten(t: ScalarType) {
    t == TypeSInt32 || t == TypeSInt64 || t == TypeFixed64 || t == TypeSFixed64
  }

  ghost predicate KeepsField(r: FieldResult, rest: Bytes, n: Field) {
    r.GotField? && r.rest == rest && (r.field.typ == n.typ && r.field.value == n.value <==> !IsForgotten(n.typ))
  }

  predicate IsUntyped(schema: Field, n: Field) {
    schema.protoType.NoProtoType? && n.protoType.NoProtoType? && schema.typ == n.typ && IsTyped(n.typ, n.value)
  }

  // Main result: under a schema without proto types a number comes back with its type and value if and only if its type is
  // neither zigzag nor an eight-byte integer.
  lemma UntypedComesBackIff(lib: Library, byTag: map<uint64, Field>, tag: uint64, n: Field, rest: Bytes)
    requires tag in byTag && tag < MAX_TAG && IsUntyped(byTag[tag], n)
    ensures EncodeField(lib, tag, n).Some? && KeepsField(ReadField(lib, byTag, EncodeField(lib, tag, n).value + rest), rest, n)
  {
    UntypedIsWritten(lib, tag, n);
    if n.typ in {TypeFloat64, TypeFixed64, TypeSFixed64} {
      Fixed64FieldReads(lib, byTag, tag, FixedBits(n.value), rest);
      UntypedFixed64(byTag[tag], n);
    } else if n.typ in {TypeFloat32, TypeFixed32, TypeSFixed32} {
      Fixed32FieldReads(lib, byTag, tag, FixedBits(n.value) % 0x1_0000_0000, rest);
      UntypedFixed32(byTag[tag], n);
    } else {
      VarintFieldReads(lib, byTag, tag, UntypedVarint(lib, n), rest);
      UntypedVarintReads(lib, byTag[tag], n);
    }
  }

  function UntypedVarint(lib: Library, n: Field): uint64 {
    if n.typ == TypeBoolean then if n.value == Bool(true) then 1 else 0
    else if n.typ in {TypeSInt32, TypeSInt64} then ZigZag(AsInt64(lib.floats, n.value))
    else AsUint64(lib.floats, n.value)
  }

  lemma UntypedIsWritten(lib: Library, tag: uint64, n: Field)
    requires n.protoType.NoProtoType? && IsTyped(n.typ, n.value)
    ensures EncodeField(lib, tag, n) == Some(
              if n.typ in {TypeFloat64, TypeFixed64, TypeSFixed64} then Fixed64Field(tag, FixedBits(n.value))
              else if n.typ in {TypeFloat32, TypeFixed32, TypeSFixed32} then Fixed32Field(tag, FixedBits(n.value) % 0x1_0000_0000)
              else VarintField(tag, UntypedVarint(lib, n)))
  {}

  lemma UntypedVarintReads(lib: Library, schema: Field, n: Field)
    requires IsUntyped(schema, n)
    requires n.typ in {TypeInt32, TypeSInt32, TypeInt64, TypeSInt64, TypeUInt32, TypeUInt64, TypeBoolean}
    ensures var r := DecodeVarintField(lib, schema.key, UntypedVarint(lib, n), Some(schema));
            r.typ == n.typ && r.value == n.value <==> !IsForgotten(n.typ)
  {
    if n.typ == TypeInt32 || n.typ == TypeInt64 {
      Narrows(AsInt64(lib.floats, n.value));
    }
  }

  lemma UntypedFixed64(schema: Field, n: Field)
    requires IsUntyped(schema, n) && n.typ in {TypeFloat64, TypeFixed64, TypeSFixed64}
    ensures var r := DecodeFixed64Field(schema.key, FixedBits(n.value), Some(schema));
            r.typ == n.typ && r.value == n.value <==> !IsForgotten(n.typ)
  {}

  lemma UntypedFixed32(schema: Field, n: Field)
    requires IsUntyped(schema, n) && n.typ in {TypeFloat32, TypeFixed32, TypeSFixed32}
    ensures var r := DecodeFixed32Field(schema.key, FixedBits(n.value) % 0x1_0000_0000, Some(schema));
            r.typ == n.typ && r.value == n.value
  {
    if n.typ == TypeSFixed32 {
      Narrows(n.value.i32);
    }
  }

  // ---------- fields that no schema knows ----------

  lemma UnknownKey(lib: Library, byTag: map<uint64, Field>, tag: uint64, wire: nat, body: Bytes)
    requires tag !in byTag && tag < MAX_TAG && wire < 8
    ensures ReadField(lib, byTag, Key(tag, wire) + body) == ReadBody(lib, Decimals.Decimal(tag), wire, body, None)
  {
    KeyReads(tag, wire, body, Key(tag, wire) + body);
    KeySplits(tag, wire);
    TagIsRead(lib, byTag, tag, wire, tag * 8 + wire, Key(tag, wire) + body, |Key(tag, wire)|);
  }

  // They are named by their number, and a varint is read as an int64, ...
  lemma UnknownVarintReads(lib: Library, byTag: map<uint64, Field>, tag: uint64, v: uint64, rest: Bytes)
    requires tag !in byTag && tag < MAX_TAG
    ensures ReadField(lib, byTag, VarintField(tag, v) + rest)
         == GotField(NewField(TypeInt64, Decimals.Decimal(tag), Int64(ToInt64(v)), NoProtoType, []), rest)
  {
    var body := Varint(v) + rest;
    assert VarintField(tag, v) + rest == Key(tag, 0) + body;
    UnknownKey(lib, byTag, tag, 0, body);
    VarintBody(lib, Decimals.Decimal(tag), v, rest);
  }

  lemma VarintBody(lib: Library, key: GoBytes, v: uint64, rest: Bytes)
    ensures ReadBody(lib, key, 0, Varint(v) + rest, None) == GotField(NewField(TypeInt64, key, Int64(ToInt64(v)), NoProtoType, []), rest)
  {
    VarintRoundTrip(v, rest);
    Behind(Varint(v), rest);
  }

  // ... eight bytes as a double and four as an unsigned number.
  lemma UnknownFixedReads(lib: Library, byTag: map<uint64, Field>, tag: uint64, wire: nat, width: nat, v: uint64, rest: Bytes)
    requires tag !in byTag && tag < MAX_TAG
    requires (wire == 1 && width == 8) || (wire == 5 && width == 4 && v < TWO_32)
    ensures ReadField(lib, byTag, (Key(tag, wire) + LittleEndian(width, v)) + rest)
         == GotField(NewField(if wire == 1 then TypeFloat64 else TypeFixed32, Decimals.Decimal(tag),
                              if wire == 1 then Float64(v) else Uint32(v), NoProtoType, []), rest)
  {
    var b := LittleEndian(width, v);
    Rejoin(Key(tag, wire), b, rest);
    UnknownKey(lib, byTag, tag, wire, b + rest);
    Behind(b, rest);
    InFront(b, rest);
    if wire == 1 { Uint64Reads(v); } else { Uint32Reads(v); }
  }
}
