/** What a projection does to values: which numbers come out of a coercion, and that data which already suits its schema
    is kept. */
module ProjectionValues {
  import opened ByteStrings
  import opened Floats
  import opened KeyOrder
  import opened Projection
  import opened ProjectionConforms
  import opened ProjectionStable
  import opened Uir
  import C = Conversions

  // ---------- integers ----------

  function Modulus(t: UirType): (m: int)
    ensures m > 0
  {
    if t in {TypeInt32, TypeSInt32, TypeSFixed32, TypeUInt32, TypeFixed32} then 0x1_0000_0000 else 0x1_0000_0000_0000_0000
  }

  predicate IsUnsigned(t: UirType) {
    t in {TypeUInt32, TypeFixed32, TypeUInt64, TypeFixed64}
  }

  // The numbers an integer type has room for.
  predicate Holds(t: UirType, i: int) {
    if IsUnsigned(t) then 0 <= i < Modulus(t) else -Modulus(t) <= 2 * i < Modulus(t)
  }

  // A result of this type: the same number if there is room for it, and always the same modulo the width.
  predicate IsNumber(w: Value, t: UirType, i: int) {
    && HasTag(t, w) && C.IsWhole(w) && Holds(t, C.NumberOf(w)) && C.Congruent(C.NumberOf(w), i, Modulus(t))
    && (Holds(t, i) ==> C.NumberOf(w) == i)
  }

  // Main result: an integer coerced to an integer type fails if and only if the type has no room for it and losses are not
  // permitted; otherwise the result is the same number, or permissively the same modulo 2^32 or 2^64.
  lemma IntegerIsKeptIff(lib: Library, l: Lossiness, typ: UirType, v: Value, t: UirType)
    requires IsInteger(t) && C.IsWhole(v) && typ != TypeNull
    ensures Coerce(lib, l, typ, v, t).None? <==> !Holds(t, C.NumberOf(v)) && l != PermissiveLoss
    ensures Coerce(lib, l, typ, v, t).Some? ==> IsNumber(Coerce(lib, l, typ, v, t).value, t, C.NumberOf(v))
  {
    IntegerIsCoerced(lib, l, typ, v, t);
    if t in {TypeInt32, TypeSInt32, TypeSFixed32} {
      Int32IsKept(lib, l, v, t);
    } else if t in {TypeInt64, TypeSInt64, TypeSFixed64} {
      Int64IsKept(lib, l, v, t);
    } else if t in {TypeUInt32, TypeFixed32} {
      Uint32IsKept(lib, l, v, t);
    } else {
      Uint64IsKept(lib, l, v, t);
    }
  }

  lemma IntegerIsCoerced(lib: Library, l: Lossiness, typ: UirType, v: Value, t: UirType)
    requires IsInteger(t) && !v.NoValue? && typ != TypeNull
    ensures Coerce(lib, l, typ, v, t) == CoerceInteger(lib, v, t, l)
  {}

  lemma Int32IsKept(lib: Library, l: Lossiness, v: Value, t: UirType)
    requires t in {TypeInt32, TypeSInt32, TypeSFixed32} && C.IsWhole(v)
    ensures CoerceInteger(lib, v, t, l).None? <==> !Holds(t, C.NumberOf(v)) && l != PermissiveLoss
    ensures CoerceInteger(lib, v, t, l).Some? ==> IsNumber(CoerceInteger(lib, v, t, l).value, t, C.NumberOf(v))
  {
    var i := ToInt64(lib, v, l);
    if i.Some? {
      assert C.Congruent(i.value, C.NumberOf(v), 0x1_0000_0000);
      LowIsNumber(i.value, C.NumberOf(v), t);
    }
  }

  lemma LowIsNumber(j: int64, i: int, t: UirType)
    requires t in {TypeInt32, TypeSInt32, TypeSFixed32} && C.Congruent(j, i, 0x1_0000_0000)
    ensures IsNumber(Int32(Low32(j)), t, i)
  {
    assert C.Congruent(Low32(j), j, 0x1_0000_0000);
    C.CongruentTwice(Low32(j), j, i, 0x1_0000_0000);
    if Holds(t, i) {
      C.CongruentAndClose(Low32(j), i, 0x1_0000_0000);
    }
  }

  lemma Int64IsKept(lib: Library, l: Lossiness, v: Value, t: UirType)
    requires t in {TypeInt64, TypeSInt64, TypeSFixed64} && C.IsWhole(v)
    ensures CoerceInteger(lib, v, t, l).None? <==> !Holds(t, C.NumberOf(v)) && l != PermissiveLoss
    ensures CoerceInteger(lib, v, t, l).Some? ==> IsNumber(CoerceInteger(lib, v, t, l).value, t, C.NumberOf(v))
  {}

  lemma Uint32IsKept(lib: Library, l: Lossiness, v: Value, t: UirType)
    requires t in {TypeUInt32, TypeFixed32} && C.IsWhole(v)
    ensures CoerceInteger(lib, v, t, l).None? <==> !Holds(t, C.NumberOf(v)) && l != PermissiveLoss
    ensures CoerceInteger(lib, v, t, l).Some? ==> IsNumber(CoerceInteger(lib, v, t, l).value, t, C.NumberOf(v))
  {
    var u := ToUint64(lib, v, l);
    if u.Some? {
      assert C.Congruent(u.value, C.NumberOf(v), 0x1_0000_0000);
      RestIsNumber(u.value, C.NumberOf(v), t);
    }
  }

  lemma RestIsNumber(u: uint64, i: int, t: UirType)
    requires t in {TypeUInt32, TypeFixed32} && C.Congruent(u, i, 0x1_0000_0000)
    ensures IsNumber(Uint32(u % 0x1_0000_0000), t, i)
  {
    var low := u % 0x1_0000_0000;
    assert C.Congruent(low, u, 0x1_0000_0000);
    C.CongruentTwice(low, u, i, 0x1_0000_0000);
    if Holds(t, i) {
      C.CongruentAndClose(low, i, 0x1_0000_0000);
    }
  }

  lemma Uint64IsKept(lib: Library, l: Lossiness, v: Value, t: UirType)
    requires t in {TypeUInt64, TypeFixed64} && C.IsWhole(v)
    ensures CoerceInteger(lib, v, t, l).None? <==> !Holds(t, C.NumberOf(v)) && l != PermissiveLoss
    ensures CoerceInteger(lib, v, t, l).Some? ==> IsNumber(CoerceInteger(lib, v, t, l).value, t, C.NumberOf(v))
  {}

  // Such an input: 3000000000 for an int32.
  lemma ThreeBillionOverflows(lib: Library)
    ensures Coerce(lib, SafeLoss, TypeInt64, Int64(3000000000), TypeInt32) == None
    ensures Coerce(lib, PermissiveLoss, TypeInt64, Int64(3000000000), TypeInt32) == Some(Int32(-1294967296))
  {}

  // Booleans count as 0 and 1, ...
  lemma BooleanIsNumber(lib: Library, l: Lossiness, typ: UirType, b: bool, t: UirType)
    requires typ != TypeNull && IsInteger(t)
    ensures var r := Coerce(lib, l, typ, Bool(b), t); r.Some? && IsNumber(r.value, t, if b then 1 else 0)
  {
    IntegerIsKeptIff(lib, l, typ, Int64(if b then 1 else 0), t);
    LikeAnInteger(lib, l, typ, b, t);
  }

  lemma LikeAnInteger(lib: Library, l: Lossiness, typ: UirType, b: bool, t: UirType)
    requires typ != TypeNull && IsInteger(t)
    ensures Coerce(lib, l, typ, Bool(b), t) == Coerce(lib, l, typ, Int64(if b then 1 else 0), t)
  {}

  // ... and of the numbers int64 alone is taken for a boolean, true unless it is 0.
  lemma NumberIsBoolean(lib: Library, l: Lossiness, typ: UirType, b: bool, i: int64)
    requires typ != TypeNull
    ensures Coerce(lib, l, typ, Bool(b), TypeBoolean) == Some(Bool(b))
    ensures Coerce(lib, l, typ, Int64(i), TypeBoolean) == Some(Bool(i != 0))
  {}

  // A text that is read as a number is coerced like that number, and fails if it is not read as one; so does a text that is
  // not read as a boolean.
  lemma TextIsRead(lib: Library, l: Lossiness, typ: UirType, s: GoBytes, t: UirType)
    requires typ != TypeNull && typ != TypeBytes && IsInteger(t)
    ensures Coerce(lib, l, typ, Str(s), t) ==
            (if lib.parseInt(s).None? then None else Coerce(lib, l, typ, Int64(lib.parseInt(s).value), t))
    ensures Coerce(lib, l, typ, Str(s), TypeBoolean) ==
            (if lib.parseBool(s).None? then None else Some(Bool(lib.parseBool(s).value)))
  {}

  // A double is coerced to a signed type like the int64 it is rounded to, if it is.
  lemma DoubleIsRounded(lib: Library, l: Lossiness, typ: UirType, bits: uint64, t: UirType)
    requires typ != TypeNull && IsInteger(t) && !IsUnsigned(t)
    ensures Coerce(lib, l, typ, Float64(bits), t) ==
            (if lib.floatToInt(bits, l).None? then None else Coerce(lib, l, typ, Int64(lib.floatToInt(bits, l).value), t))
  {}

  // Bytes stay bytes and become the text they are read as; a text becomes the bytes it is read as, and nothing else does.
  lemma BytesAndTexts(lib: Library, l: Lossiness, typ: UirType, v: Value)
    requires typ != TypeNull && !v.NoValue?
    ensures Coerce(lib, l, typ, v, TypeBytes) ==
            (if v.Blob? then Some(v)
             else if v.Str? && lib.textToBytes(v.s).Some? then Some(Blob(lib.textToBytes(v.s).value)) else None)
    ensures v.Blob? ==>
              (Coerce(lib, l, TypeBytes, v, TypeString)
               == if lib.bytesToText(v.s).None? then None else Some(Str(lib.bytesToText(v.s).value)))
    ensures typ != TypeBytes ==> Coerce(lib, l, typ, v, TypeString) == Some(if v.Str? then v else Str(lib.sprint(v)))
  {}

  // ---------- floating point ----------

  // A float32 becomes the double of exactly its magnitude, and a double stays as it is.
  lemma DoubleIsExact(lib: Library, l: Lossiness, typ: UirType, v: Value)
    requires typ != TypeNull && (v.Float32? || v.Float64?)
    ensures var r := Coerce(lib, l, typ, v, TypeFloat64);
            && r.Some? && r.value.Float64? && (v.Float64? ==> r.value == v)
            && (v.Float32? && (v.bits32 / 0x80_0000) % 256 != 255 ==>
                  Agrees(r.value.bits, v.bits32 / 0x8000_0000, SingleMagnitude(v.bits32)))
  {
    if v.Float32? && (v.bits32 / 0x80_0000) % 256 != 255 {
      SingleExpansionIsExact(v.bits32);
    }
  }

  // Strictly, a finite double is narrowed only if the result has exactly its sign and magnitude.
  lemma StrictFloatIsExact(lib: Library, typ: UirType, bits: uint64)
    requires typ != TypeNull && (bits / 0x10_0000_0000_0000) % 2048 != 2047
    ensures var r, f := Coerce(lib, StrictLoss, typ, Float64(bits), TypeFloat32), lib.narrow(bits);
            && (r.None? <==> SingleToDouble(f) != bits)
            && (r.Some? && (f / 0x80_0000) % 256 != 255 ==>
                  r.value == Float32(f) && Agrees(bits, f / 0x8000_0000, SingleMagnitude(f)))
  {
    var f := lib.narrow(bits);
    if (f / 0x80_0000) % 256 != 255 {
      SingleExpansionIsExact(f);
    }
  }

  // ---------- values that need no coercion ----------

  // A value of the right dynamic type; of a float32, one that widening and rounding leave alone.
  predicate ScalarSuits(lib: Library, v: Value, t: UirType) {
    t != TypeNull && HasTag(t, v) && (v.Float32? ==> lib.narrow(SingleToDouble(v.bits32)) == v.bits32)
  }

  lemma SuitingValueIsKept(lib: Library, l: Lossiness, v: Value, t: UirType)
    requires ScalarSuits(lib, v, t)
    ensures Coerce(lib, l, t, v, t) == Some(v)
  {
    if IsInteger(t) {
      IntegerIsKeptIff(lib, l, t, v, t);
    }
  }

  // Where there is nothing to coerce, numbers are 0, booleans false and texts empty.
  lemma NothingBecomesZero(lib: Library, l: Lossiness, typ: UirType, t: UirType)
    ensures Coerce(lib, l, typ, NoValue, t) == Some(ZeroFor(t)) && HasTag(t, ZeroFor(t))
    ensures IsInteger(t) ==> C.IsWhole(ZeroFor(t)) && C.NumberOf(ZeroFor(t)) == 0
    ensures t == TypeFloat32 || t == TypeFloat64 ==> ZeroFor(t) == Float32(0) || ZeroFor(t) == Float64(0)
    ensures t == TypeBoolean ==> ZeroFor(t) == Bool(false)
    ensures ZeroFor(t).Str? || ZeroFor(t).Blob? ==> ZeroFor(t).s == []
  {}

  // ---------- data that suits its schema ----------

  // A tree with the shape of the schema: values of the right types, elements that suit the element schema, and records
  // whose fields are all in the schema, under their own names. Optional fields may be absent.
  ghost predicate Suits(lib: Library, opt: Options, d: Node, schema: Node)
    decreases d, 1
  {
    d.Node? && d.presence == Present && d.typ != TypeNull && schema.Node? &&
    var s := Resolved(schema, opt.root);
    s.Node? &&
    if s.typ == TypeArray then d.typ == TypeArray && ElementsSuit(lib, opt, d.children, s)
    else if IsRecordType(s.typ) then IsRecordType(d.typ) && MembersSuit(lib, opt, d.children, s.children)
    else d.typ == s.typ && ScalarSuits(lib, d.value, s.typ)
  }

  ghost predicate ElementsSuit(lib: Library, opt: Options, elements: seq<Node>, s: Node)
    requires s.Node?
    decreases elements, 0
  {
    forall i | 0 <= i < |elements| ::
      if ProjectsElements(s) then Suits(lib, opt, elements[i], ElementSchema(s))
      else elements[i].Node? && elements[i].typ == s.elementType && !IsBranch(s.elementType)
           && ScalarSuits(lib, elements[i].value, s.elementType)
  }

  predicate IsBranch(t: UirType) {
    t == TypeArray || IsRecordType(t)
  }

  ghost predicate MembersSuit(lib: Library, opt: Options, children: seq<Node>, fields: seq<Node>)
    decreases children, 1
  {
    && NilNode !in children && DistinctNodeKeys(children)
    && (forall i | 0 <= i < |children| :: HasField(fields, KeyOf(children[i])))
    && FieldsSuit(lib, opt, children, fields)
  }

  ghost predicate FieldsSuit(lib: Library, opt: Options, children: seq<Node>, fields: seq<Node>)
    decreases children, 0
  {
    && DistinctFields(fields) && NilNode !in fields
    && (forall i, j | 0 <= i < |children| && 0 <= j < |fields| && KeyOf(children[i]) == KeyOf(fields[j]) ::
          Suits(lib, opt, children[i], Target(fields[j], opt.root)))
    && (forall j | 0 <= j < |fields| :: HasKey(children, KeyOf(fields[j])) || MayStayAway(lib, opt, children, fields[j]))
  }

  ghost predicate HasKey(nodes: seq<Node>, key: GoBytes) {
    exists i :: 0 <= i < |nodes| && nodes[i].Node? && nodes[i].key == key
  }

  // An optional field that none of the children is taken for.
  ghost predicate MayStayAway(lib: Library, opt: Options, children: seq<Node>, field: Node) {
    Omittable(field) && !opt.emitNull && Lookup(lib, opt.nameMatch, IndexOf(children), field).None?
  }

  // ---------- the same data ----------

  // The same values, elements and members, apart from the order of members.
  ghost predicate SameData(r: Node, d: Node)
    decreases d, 1
  {
    r.Node? && d.Node? &&
    if d.typ == TypeArray then r.typ == TypeArray && SameElements(r.children, d.children)
    else if IsRecordType(d.typ) then r.typ == TypeMap && SameMembers(r.children, d.children)
    else r.typ == d.typ && r.value == d.value
  }

  ghost predicate SameElements(rs: seq<Node>, ds: seq<Node>)
    decreases ds, 0
  {
    |rs| == |ds| && forall i | 0 <= i < |ds| :: SameData(rs[i], ds[i])
  }

  ghost predicate SameMembers(rs: seq<Node>, ds: seq<Node>)
    decreases ds, 0
  {
    && (forall i | 0 <= i < |ds| :: Carried(rs, ds[i]))
    && (forall j | 0 <= j < |rs| :: HasKey(ds, KeyOf(rs[j])))
    && DistinctNodeKeys(rs)
  }

  ghost predicate Carried(rs: seq<Node>, d: Node)
    decreases d, 2
  {
    exists j :: 0 <= j < |rs| && KeyOf(rs[j]) == KeyOf(d) && SameData(rs[j], d)
  }

  ghost predicate IsKept(out: Outcome, d: Node) {
    out.Done? && SameData(out.node, d)
  }

  // Main result: data that suits its schema is projected to the same data, whatever the policies.
  lemma {:induction false} SuitingDataIsKept(lib: Library, opt: Options, d: Node, schema: Node, name: GoBytes)
    requires Suits(lib, opt, d, schema)
    ensures IsKept(ProjectNode(lib, opt, d, schema, name), d)
    decreases d, 3
  {
    var s := Resolved(schema, opt.root);
    if s.typ == TypeArray {
      ArrayIsKept(lib, opt, d, s, name);
      assert ProjectNode(lib, opt, d, schema, name) == ProjectArray(lib, opt, d, s, name);
    } else if IsRecordType(s.typ) {
      RecordIsKept(lib, opt, d, s, name);
      assert ProjectNode(lib, opt, d, schema, name) == ProjectRecord(lib, opt, d, s, name);
    } else {
      SuitingValueIsKept(lib, opt.lossiness, d.value, s.typ);
      assert ProjectNode(lib, opt, d, schema, name) == ProjectScalar(lib, opt, d, s, name);
    }
  }

  lemma {:induction false} ArrayIsKept(lib: Library, opt: Options, d: Node, s: Node, name: GoBytes)
    requires d.Node? && d.presence == Present && s.Node? && s.typ == TypeArray && d.typ == TypeArray
    requires ElementsSuit(lib, opt, d.children, s)
    ensures IsKept(ProjectArray(lib, opt, d, s, name), d)
    decreases d, 2
  {
    ElementsAreKept(lib, opt, d.children, s);
  }

  lemma {:induction false} ElementsAreKept(lib: Library, opt: Options, elements: seq<Node>, s: Node)
    requires s.Node? && ElementsSuit(lib, opt, elements, s)
    ensures ProjectElements(lib, opt, elements, s).AllDone?
    ensures SameElements(ProjectElements(lib, opt, elements, s).nodes, elements)
    decreases elements, 1
  {
    if elements != [] {
      ElementIsKept(lib, opt, elements[0], s, elements);
      ElementsAreKept(lib, opt, elements[1..], s);
    }
  }

  lemma {:induction false} ElementIsKept(lib: Library, opt: Options, e: Node, s: Node, elements: seq<Node>)
    requires s.Node? && ElementsSuit(lib, opt, elements, s) && elements != [] && e == elements[0]
    ensures IsKept(ProjectElement(lib, opt, e, s), e)
    decreases e, 4
  {
    if ProjectsElements(s) {
      SuitingDataIsKept(lib, opt, e, ElementSchema(s), ItemName(s));
    } else {
      SuitingValueIsKept(lib, opt.lossiness, e.value, s.elementType);
    }
  }

  // ---------- records ----------

  lemma {:induction false} RecordIsKept(lib: Library, opt: Options, d: Node, s: Node, name: GoBytes)
    requires d.Node? && d.presence == Present && s.Node? && IsRecordType(d.typ) && MembersSuit(lib, opt, d.children, s.children)
    ensures IsKept(ProjectRecord(lib, opt, d, s, name), d)
    decreases d, 2
  {
    FieldsAreKept(lib, opt, d, IndexOf(d.children), s.children);
    NothingIsUnknown(lib, opt, d.children, d.children, s.children);
    var nodes := ProjectFields(lib, opt, d, IndexOf(d.children), s.children).nodes;
    RecordOf(lib, opt, d, s, name, nodes);
    KeptIsSame(nodes, d.children, s.children);
  }

  lemma KeptIsSame(nodes: seq<Node>, children: seq<Node>, fields: seq<Node>)
    requires KeptMembers(nodes, children, fields) && forall i | 0 <= i < |children| :: HasField(fields, KeyOf(children[i]))
    ensures SameMembers(nodes, children)
  {}

  lemma RecordOf(lib: Library, opt: Options, d: Node, s: Node, name: GoBytes, nodes: seq<Node>)
    requires d.Node? && d.presence == Present && s.Node? && NilNode !in d.children
    requires ProjectFields(lib, opt, d, IndexOf(d.children), s.children) == AllDone(nodes)
    requires UnknownFields(lib, opt, IndexOf(d.children), d.children, s.children) == []
    ensures ProjectRecord(lib, opt, d, s, name) == Done(Container(TypeMap, name, nodes, s))
  {
    assert nodes + [] == nodes;
  }

  // The nodes are those of the children that the fields ask for.
  ghost predicate KeptMembers(nodes: seq<Node>, children: seq<Node>, fields: seq<Node>) {
    && (forall i | 0 <= i < |children| && HasField(fields, KeyOf(children[i])) :: Carried(nodes, children[i]))
    && (forall j | 0 <= j < |nodes| :: nodes[j].Node? && HasKey(children, nodes[j].key) && HasField(fields, nodes[j].key))
    && DistinctNodeKeys(nodes)
  }

  lemma {:induction false} FieldsAreKept(lib: Library, opt: Options, d: Node, index: map<GoBytes, Node>, fields: seq<Node>)
    requires d.Node? && index == IndexOf(d.children) && DistinctNodeKeys(d.children) && NilNode !in d.children
    requires FieldsSuit(lib, opt, d.children, fields)
    ensures ProjectFields(lib, opt, d, index, fields).AllDone?
    ensures KeptMembers(ProjectFields(lib, opt, d, index, fields).nodes, d.children, fields)
    decreases d, 1, |fields|
  {
    if fields != [] {
      FewerFieldsSuit(lib, opt, d.children, fields);
      FieldsAreKept(lib, opt, d, index, fields[1..]);
      FieldIsKept(lib, opt, d, index, fields[0], fields);
      var first, rest := ProjectField(lib, opt, d, index, fields[0]).node, ProjectFields(lib, opt, d, index, fields[1..]).nodes;
      MembersInFront(first, rest, d.children, fields);
    }
  }

  lemma FewerFieldsSuit(lib: Library, opt: Options, children: seq<Node>, fields: seq<Node>)
    requires fields != [] && FieldsSuit(lib, opt, children, fields)
    ensures FieldsSuit(lib, opt, children, fields[1..])
  {}

  // What a field gives: the data of the child with its key, or nothing.
  ghost predicate GivesChild(n: Node, children: seq<Node>, field: Node) {
    if HasKey(children, KeyOf(field)) then
      && n.Node? && field.Node? && n.key == field.key
      && forall i | 0 <= i < |children| && KeyOf(children[i]) == field.key :: SameData(n, children[i])
    else n.NilNode?
  }

  lemma {:induction false} FieldIsKept(lib: Library, opt: Options, d: Node, index: map<GoBytes, Node>, field: Node, fields: seq<Node>)
    requires d.Node? && index == IndexOf(d.children) && DistinctNodeKeys(d.children) && NilNode !in d.children
    requires fields != [] && field == fields[0] && FieldsSuit(lib, opt, d.children, fields)
    ensures ProjectField(lib, opt, d, index, field).Done?
    ensures GivesChild(ProjectField(lib, opt, d, index, field).node, d.children, field)
    decreases d, 0
  {
    if HasKey(d.children, KeyOf(field)) {
      var i :| 0 <= i < |d.children| && d.children[i].Node? && d.children[i].key == KeyOf(field);
      var c := d.children[i];
      IndexFinds(d.children, i);
      SuitingDataIsKept(lib, opt, c, Target(field, opt.root), field.key);
      FoundGivesChild(lib, opt, d, index, field, i);
    } else {
      assert MayStayAway(lib, opt, d.children, field);
      AwayGivesNothing(lib, opt, d, index, field);
    }
  }

  lemma {:induction false} FoundGivesChild(lib: Library, opt: Options, d: Node, index: map<GoBytes, Node>, field: Node, i: nat)
    requires d.Node? && index == IndexOf(d.children) && DistinctNodeKeys(d.children) && i < |d.children| && field.Node?
    requires KeyOf(d.children[i]) == field.key && d.children[i].Node?
    requires field.key in index && index[field.key] == d.children[i]
    requires IsKept(ProjectNode(lib, opt, d.children[i], Target(field, opt.root), field.key), d.children[i])
    ensures ProjectField(lib, opt, d, index, field).Done?
    ensures GivesChild(ProjectField(lib, opt, d, index, field).node, d.children, field)
  {
    var out := ProjectNode(lib, opt, d.children[i], Target(field, opt.root), field.key);
    OtherKey(out.node, field.key, d.children[i]);
    assert ProjectField(lib, opt, d, index, field) == Done(out.node.(key := field.key));
  }

  lemma {:induction false} AwayGivesNothing(lib: Library, opt: Options, d: Node, index: map<GoBytes, Node>, field: Node)
    requires d.Node? && index == IndexOf(d.children) && field.Node? && MayStayAway(lib, opt, d.children, field)
    requires !HasKey(d.children, KeyOf(field))
    ensures ProjectField(lib, opt, d, index, field) == Done(NilNode)
    ensures GivesChild(NilNode, d.children, field)
  {}

  lemma OtherKey(n: Node, key: GoBytes, d: Node)
    requires n.Node? && SameData(n, d)
    ensures SameData(n.(key := key), d)
  {}

  lemma MembersInFront(first: Node, rest: seq<Node>, children: seq<Node>, fields: seq<Node>)
    requires fields != [] && fields[0].Node? && DistinctFields(fields) && KeptMembers(rest, children, fields[1..])
    requires GivesChild(first, children, fields[0]) && NilNode !in children
    ensures KeptMembers(if first.NilNode? then rest else [first] + rest, children, fields)
  {
    var nodes := if first.NilNode? then rest else [first] + rest;
    forall i | 0 <= i < |children| && HasField(fields, KeyOf(children[i])) ensures Carried(nodes, children[i]) {
      ChildIsCarried(first, rest, nodes, children, fields, i);
    }
    forall j | 0 <= j < |rest| ensures HasField(fields, rest[j].key) && rest[j].key != fields[0].key {
      FieldBehind(fields, rest[j].key);
    }
    if first.Node? {
      assert HasField(fields, first.key);
      FirstIsKnown(first, rest, nodes, children, fields);
      DistinctInFront(first, rest, nodes);
    }
  }

  lemma FirstIsKnown(first: Node, rest: seq<Node>, nodes: seq<Node>, children: seq<Node>, fields: seq<Node>)
    requires nodes == [first] + rest && first.Node? && HasKey(children, first.key) && HasField(fields, first.key)
    requires forall j | 0 <= j < |rest| :: rest[j].Node? && HasKey(children, rest[j].key) && HasField(fields, rest[j].key)
    ensures forall j | 0 <= j < |nodes| :: nodes[j].Node? && HasKey(children, nodes[j].key) && HasField(fields, nodes[j].key)
  {}

  lemma {:induction false} ChildIsCarried(first: Node, rest: seq<Node>, nodes: seq<Node>, children: seq<Node>, fields: seq<Node>, i: nat)
    requires fields != [] && fields[0].Node? && KeptMembers(rest, children, fields[1..])
    requires GivesChild(first, children, fields[0]) && NilNode !in children
    requires nodes == (if first.NilNode? then rest else [first] + rest)
    requires i < |children| && HasField(fields, KeyOf(children[i]))
    ensures Carried(nodes, children[i])
  {
    var c := children[i];
    if KeyOf(c) == fields[0].key {
      assert c in children;
      assert SameData(first, c);
      CarriedInFront(first, rest, c);
    } else {
      LaterField(fields, KeyOf(c));
      CarriedBehind(rest, nodes, c);
    }
  }

  lemma {:induction false} CarriedInFront(first: Node, rest: seq<Node>, c: Node)
    requires KeyOf(first) == KeyOf(c) && SameData(first, c)
    ensures Carried([first] + rest, c)
  {
    assert ([first] + rest)[0] == first;
  }

  lemma {:induction false} CarriedBehind(rest: seq<Node>, nodes: seq<Node>, c: Node)
    requires Carried(rest, c) && |nodes| >= |rest| && nodes[|nodes| - |rest|..] == rest
    ensures Carried(nodes, c)
  {
    var j :| 0 <= j < |rest| && KeyOf(rest[j]) == KeyOf(c) && SameData(rest[j], c);
    assert nodes[|nodes| - |rest| + j] == rest[j];
  }

  lemma LaterField(fields: seq<Node>, key: GoBytes)
    requires fields != [] && HasField(fields, key) && KeyOf(fields[0]) != key
    ensures HasField(fields[1..], key)
  {
    var j :| 0 <= j < |fields| && fields[j].Node? && fields[j].key == key;
    assert fields[1..][j - 1].key == key;
  }

  lemma FieldBehind(fields: seq<Node>, key: GoBytes)
    requires fields != [] && fields[0].Node? && DistinctFields(fields) && HasField(fields[1..], key)
    ensures HasField(fields, key) && key != fields[0].key
  {
    var j :| 0 <= j < |fields[1..]| && fields[1..][j].Node? && fields[1..][j].key == key;
    assert fields[j + 1].key == key;
  }

  lemma DistinctInFront(first: Node, rest: seq<Node>, nodes: seq<Node>)
    requires nodes == [first] + rest && DistinctNodeKeys(rest) && forall j | 0 <= j < |rest| :: KeyOf(rest[j]) != KeyOf(first)
    ensures DistinctNodeKeys(nodes)
  {}

  // Every child is taken by the field of its name.
  lemma {:induction false} NothingIsUnknown(lib: Library, opt: Options, all: seq<Node>, children: seq<Node>, fields: seq<Node>)
    requires DistinctNodeKeys(all) && NilNode !in all && (forall i | 0 <= i < |all| :: HasField(fields, KeyOf(all[i])))
    requires forall c | c in children :: c in all
    ensures UnknownFields(lib, opt, IndexOf(all), children, fields) == []
  {
    if children != [] {
      var c := children[0];
      assert c in children;
      NothingIsUnknown(lib, opt, all, children[1..], fields);
      var m :| 0 <= m < |all| && all[m] == c;
      IndexFinds(all, m);
      var i :| 0 <= i < |fields| && fields[i].Node? && fields[i].key == KeyOf(c);
      assert FoundUnder(Lookup(lib, opt.nameMatch, IndexOf(all), fields[i]), KeyOf(c));
    }
  }
}
