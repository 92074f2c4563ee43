/** What a successful projection looks like: the schema's fields in the schema's order, with its types. */
module ProjectionConforms {
  import opened ByteStrings
  import opened KeyOrder
  import opened Projection
  import opened Uir

  // ---------- the dynamic types of values ----------

  // The dynamic type that goes with a type tag; none goes with references and the like.
  predicate HasTag(t: UirType, v: Value) {
    if t in {TypeInt32, TypeSInt32, TypeSFixed32} then v.Int32?
    else if t in {TypeInt64, TypeSInt64, TypeSFixed64} then v.Int64?
    else if t in {TypeUInt32, TypeFixed32} then v.Uint32?
    else if t in {TypeUInt64, TypeFixed64} then v.Uint64?
    else if t == TypeFloat32 then v.Float32?
    else if t == TypeFloat64 then v.Float64?
    else if t == TypeBoolean then v.Bool?
    else if t == TypeBytes then v.Blob?
    else if t in {TypeString, TypeEnum, TypeTimestamp, TypeDate, TypeTime, TypeDuration, TypeDecimal} then v.Str?
    else t == TypeNull ==> v.NoValue?
  }

  // Main result: a coerced value has the dynamic type of its tag, unless the tag is a boolean and there is a
  // value that is neither a boolean nor an int64 nor a string; that one is passed on as it is.
  lemma CoercedTypeIff(lib: Library, l: Lossiness, typ: UirType, v: Value, t: UirType)
    requires Coerce(lib, l, typ, v, t).Some?
    ensures HasTag(t, Coerce(lib, l, typ, v, t).value)
       <==> !(t == TypeBoolean && !v.NoValue? && typ != TypeNull && !v.Bool? && !v.Int64? && !v.Str?)
  {
    if !v.NoValue? && typ != TypeNull && t == TypeBoolean {
      BooleanTypeIff(lib, v);
    }
  }

  lemma BooleanTypeIff(lib: Library, v: Value)
    requires CoerceBool(lib, v).Some?
    ensures CoerceBool(lib, v).value.Bool? <==> v.Bool? || v.Int64? || v.Str?
    ensures !CoerceBool(lib, v).value.Bool? ==> CoerceBool(lib, v).value == v
  {}

  // An int32 stays an int32 under a boolean tag.
  lemma NumberUnderBoolean(lib: Library, l: Lossiness, i: int32)
    ensures Coerce(lib, l, TypeInt32, Int32(i), TypeBoolean) == Some(Int32(i)) && !HasTag(TypeBoolean, Int32(i))
  {}

  // A value of its tag's type, or one that went through as a boolean.
  predicate Typed(t: UirType, v: Value) {
    HasTag(t, v) || t == TypeBoolean
  }

  // The result follows the schema, at every level. Null stands only for what the resolved schema leaves
  // optional (or for a type null).
  ghost predicate Conforms(opt: Options, r: Node, schema: Node)
    decreases r, 2
  {
    r.Node? && schema.Node? &&
    var s := Resolved(schema, opt.root);
    s.Node? &&
    if r.presence == Defaulted then HasDefault(s) && r.typ == s.typ
    else if r.typ == TypeNull && s.typ != TypeNull then !IsRequired(s)
    else if s.typ == TypeArray then r.typ == TypeArray && ElementsConform(opt, r.children, s)
    else if IsRecordType(s.typ) then r.typ == TypeMap && FieldsConform(opt, r.children, s.children)
    else r.typ == s.typ && Typed(s.typ, r.value)
  }

  ghost predicate ElementsConform(opt: Options, elements: seq<Node>, s: Node)
    requires s.Node?
    decreases elements, 1
  {
    forall i | 0 <= i < |elements| ::
      if ProjectsElements(s) then Conforms(opt, elements[i], ElementSchema(s))
      else elements[i].Node? && elements[i].typ == s.elementType && Typed(s.elementType, elements[i].value)
  }

  // The nodes belong to the fields one after the other; a field without a node may be absent.
  ghost predicate FieldsConform(opt: Options, nodes: seq<Node>, fields: seq<Node>)
    decreases nodes, 3, |fields|
  {
    if fields == [] then nodes == []
    else
      || (nodes != [] && FieldConforms(opt, nodes[0], fields[0]) && FieldsConform(opt, nodes[1..], fields[1..]))
      || (MayBeAbsent(opt, fields[0]) && FieldsConform(opt, nodes, fields[1..]))
  }

  ghost predicate FieldConforms(opt: Options, n: Node, field: Node)
    decreases n, 3
  {
    && n.Node? && field.Node? && n.key == field.key
    && (Filled(opt, n, field) || Conforms(opt, n, Target(field, opt.root)))
    && (IsRequired(field) && NamesItsType(field, opt.root) && n.typ == TypeNull ==>
          n.presence == Defaulted || Resolved(Target(field, opt.root), opt.root).typ == TypeNull)
  }

  // A node for a field without data.
  ghost predicate Filled(opt: Options, n: Node, field: Node) {
    n.Node? && field.Node? &&
    if n.presence == Defaulted then HasDefault(field) && n.typ == field.typ
    else opt.emitNull && n.typ == TypeNull && !IsRequired(field)
  }

  // Neither required nor with a default: the field itself if there is no data for it, or else, if the data says
  // that it is missing, the schema that it is projected onto.
  ghost predicate MayBeAbsent(opt: Options, field: Node) {
    !opt.emitNull && field.Node? && (Omittable(field) || Omittable(Resolved(Target(field, opt.root), opt.root)))
  }

  ghost predicate Omittable(s: Node) {
    s.Node? && !IsRequired(s) && !HasDefault(s)
  }

  // A required field that names its type is never absent.
  lemma RequiredIsPresent(opt: Options, field: Node)
    requires field.Node? && IsRequired(field) && NamesItsType(field, opt.root)
    ensures !MayBeAbsent(opt, field)
  {
    RequiredCarriesOver(field, opt.root);
  }

  // A reference that is resolved by its annotation, if at all. By its key alone it would be held to the
  // cardinality of the named type instead of its own.
  ghost predicate NamesItsType(field: Node, root: Node) {
    field.Node? && (field.typ == TypeRef && GqlType(field) == [] ==> ResolveNamed(field.key, root).None?)
  }

  // ---------- references ----------

  lemma {:induction false} FoundIsNamed(n: Node, name: Bytes)
    requires FindNamedType(n, name).Some?
    ensures FindNamedType(n, name).value.Node? && IsNamed(FindNamedType(n, name).value.typ)
    decreases n, 0
  {
    if !(n.key == name && IsNamed(n.typ)) {
      FoundAmongIsNamed(n.children, name);
    }
  }

  lemma {:induction false} FoundAmongIsNamed(nodes: seq<Node>, name: Bytes)
    requires FindNamedAmong(nodes, name).Some?
    ensures FindNamedAmong(nodes, name).value.Node? && IsNamed(FindNamedAmong(nodes, name).value.typ)
    decreases nodes, 1
  {
    if FindNamedType(nodes[0], name).Some? {
      FoundIsNamed(nodes[0], name);
    } else {
      FoundAmongIsNamed(nodes[1..], name);
    }
  }

  lemma ResolvedIsNode(schema: Node, root: Node)
    requires schema.Node?
    ensures Resolved(schema, root).Node?
  {
    var name := if GqlType(schema) != [] then GqlType(schema) else schema.key;
    if name != [] && FindNamedType(root, name).Some? {
      FoundIsNamed(root, name);
    }
  }

  // A target is a node with the key of its field, and nothing more to resolve unless the field itself is.
  lemma TargetIsNode(field: Node, root: Node)
    requires field.Node?
    ensures Target(field, root).Node? && Target(field, root).key == field.key
    ensures Target(field, root) != field ==> Target(field, root).typ != TypeRef
  {
    var found := ResolveNamed(GqlType(field), root);
    if found.Some? {
      FoundIsNamed(root, GqlType(field));
    }
  }

  // Whoever names its type keeps its own obligations.
  lemma RequiredCarriesOver(field: Node, root: Node)
    requires field.Node? && NamesItsType(field, root) && IsRequired(field)
    ensures IsRequired(Resolved(Target(field, root), root))
  {
    TargetIsNode(field, root);
    var t := Target(field, root);
    var found := ResolveNamed(GqlType(field), root);
    if found.Some? {
      FoundIsNamed(root, GqlType(field));
    }
    if t == field {
      assert Resolved(field, root) == field;
    } else {
      MergedAnnotation(found.value.annotations, field.annotations, Ascii("nonNull"));
      assert Resolved(t, root) == t && t.cardinality == field.cardinality;
    }
  }

  lemma MergedAnnotation(a: map<Bytes, Bytes>, b: map<Bytes, Bytes>, key: Bytes)
    ensures key in b ==> key in a + b && (a + b)[key] == b[key]
  {}

  // ---------- the shape of results ----------

  // A node that comes out of a projection has the name asked for.
  lemma ResultName(lib: Library, opt: Options, data: Node, schema: Node, name: GoBytes)
    requires schema.Node? && ProjectNode(lib, opt, data, schema, name).Done?
    requires ProjectNode(lib, opt, data, schema, name).node.Node?
    ensures ProjectNode(lib, opt, data, schema, name).node.key == name
  {}

  lemma MissingConforms(lib: Library, opt: Options, data: Node, schema: Node, s: Node, name: GoBytes)
    requires schema.Node? && s == Resolved(schema, opt.root) && s.Node? && ApplyMissing(lib, opt, s, name).Done?
    ensures var r := ApplyMissing(lib, opt, s, name).node;
            if r.Node? then Conforms(opt, r, schema) else !opt.emitNull && !IsRequired(s) && !HasDefault(s)
  {}

  // What a projection of `data` onto `schema` may return.
  ghost predicate Fine(opt: Options, out: Outcome, schema: Node) {
    out.Done? ==>
      if out.node.Node? then Conforms(opt, out.node, schema)
      else !opt.emitNull && Omittable(Resolved(schema, opt.root))
  }

  // Main result: whatever the data and the schema, a successful projection follows the schema.
  lemma {:induction false} ResultConforms(lib: Library, opt: Options, data: Node, schema: Node, name: GoBytes)
    requires opt.unknown == IgnoreUnknown && schema.Node?
    ensures Fine(opt, ProjectNode(lib, opt, data, schema, name), schema)
    decreases data, 3
  {
    var s := Resolved(schema, opt.root);
    ResolvedIsNode(schema, opt.root);
    if IsMissing(data) {
      MissingProjects(lib, opt, data, schema, s, name);
    } else if s.typ == TypeArray {
      ArrayConforms(lib, opt, data, schema, s, name);
    } else if IsRecordType(s.typ) {
      RecordConforms(lib, opt, data, schema, s, name);
    } else {
      ScalarConforms(lib, opt, data, schema, s, name);
    }
  }

  lemma MissingProjects(lib: Library, opt: Options, data: Node, schema: Node, s: Node, name: GoBytes)
    requires schema.Node? && s == Resolved(schema, opt.root) && s.Node? && IsMissing(data)
    ensures Fine(opt, ProjectNode(lib, opt, data, schema, name), schema)
  {
    assert ProjectNode(lib, opt, data, schema, name) == ApplyMissing(lib, opt, s, name);
    if ApplyMissing(lib, opt, s, name).Done? {
      MissingConforms(lib, opt, data, schema, s, name);
    }
  }

  lemma ScalarConforms(lib: Library, opt: Options, data: Node, schema: Node, s: Node, name: GoBytes)
    requires schema.Node? && s == Resolved(schema, opt.root) && s.Node? && !IsMissing(data)
    requires s.typ != TypeArray && !IsRecordType(s.typ)
    ensures Fine(opt, ProjectNode(lib, opt, data, schema, name), schema)
  {
    if Coerce(lib, opt.lossiness, data.typ, data.value, s.typ).Some? {
      CoercedTypeIff(lib, opt.lossiness, data.typ, data.value, s.typ);
    }
  }

  lemma {:induction false} ArrayConforms(lib: Library, opt: Options, data: Node, schema: Node, s: Node, name: GoBytes)
    requires opt.unknown == IgnoreUnknown
    requires schema.Node? && s == Resolved(schema, opt.root) && s.Node? && s.typ == TypeArray && !IsMissing(data)
    ensures Fine(opt, ProjectNode(lib, opt, data, schema, name), schema)
    decreases data, 2
  {
    assert ProjectNode(lib, opt, data, schema, name) == ProjectArray(lib, opt, data, s, name);
    if data.typ == TypeArray && ProjectElements(lib, opt, data.children, s).AllDone? {
      ElementsAreFine(lib, opt, data.children, s);
    }
  }

  lemma {:induction false} ElementsAreFine(lib: Library, opt: Options, elements: seq<Node>, s: Node)
    requires opt.unknown == IgnoreUnknown && s.Node? && ProjectElements(lib, opt, elements, s).AllDone?
    ensures ElementsConform(opt, ProjectElements(lib, opt, elements, s).nodes, s)
    decreases elements, 1
  {
    if elements != [] {
      if ProjectsElements(s) {
        ResultConforms(lib, opt, elements[0], ElementSchema(s), ItemName(s));
      } else {
        CoercedTypeIff(lib, opt.lossiness, elements[0].typ, elements[0].value, s.elementType);
      }
      ElementsAreFine(lib, opt, elements[1..], s);
    }
  }

  lemma {:induction false} RecordConforms(lib: Library, opt: Options, data: Node, schema: Node, s: Node, name: GoBytes)
    requires opt.unknown == IgnoreUnknown
    requires schema.Node? && s == Resolved(schema, opt.root) && s.Node? && IsRecordType(s.typ) && !IsMissing(data)
    ensures Fine(opt, ProjectNode(lib, opt, data, schema, name), schema)
    decreases data, 2
  {
    assert ProjectNode(lib, opt, data, schema, name) == ProjectRecord(lib, opt, data, s, name);
    if NilNode !in data.children && ProjectFields(lib, opt, data, IndexOf(data.children), s.children).AllDone? {
      FieldsAreFine(lib, opt, data, IndexOf(data.children), s.children);
      RecordIsItsFields(lib, opt, data, s, name);
    }
  }

  // With unknown fields ignored a projected record consists of the projected fields.
  lemma RecordIsItsFields(lib: Library, opt: Options, data: Node, s: Node, name: GoBytes)
    requires opt.unknown == IgnoreUnknown && s.Node? && !IsMissing(data) && NilNode !in data.children
    requires ProjectFields(lib, opt, data, IndexOf(data.children), s.children).AllDone?
    ensures var nodes := ProjectFields(lib, opt, data, IndexOf(data.children), s.children).nodes;
            ProjectRecord(lib, opt, data, s, name) == Done(Container(TypeMap, name, nodes, s))
  {
    var nodes := ProjectFields(lib, opt, data, IndexOf(data.children), s.children).nodes;
    assert nodes + [] == nodes;
  }

  lemma {:induction false} FieldsAreFine(lib: Library, opt: Options, data: Node, index: map<GoBytes, Node>, fields: seq<Node>)
    requires opt.unknown == IgnoreUnknown && data.Node? && forall k | k in index :: index[k] in data.children
    requires ProjectFields(lib, opt, data, index, fields).AllDone?
    ensures FieldsConform(opt, ProjectFields(lib, opt, data, index, fields).nodes, fields)
    decreases data, 1, |fields|
  {
    if fields != [] {
      FieldIsFine(lib, opt, data, index, fields[0]);
      FieldsAreFine(lib, opt, data, index, fields[1..]);
    }
  }

  lemma {:induction false} FieldIsFine(lib: Library, opt: Options, data: Node, index: map<GoBytes, Node>, field: Node)
    requires opt.unknown == IgnoreUnknown && data.Node? && forall k | k in index :: index[k] in data.children
    requires ProjectField(lib, opt, data, index, field).Done?
    ensures var r := ProjectField(lib, opt, data, index, field).node;
            if r.Node? then FieldConforms(opt, r, field) else MayBeAbsent(opt, field)
    decreases data, 0
  {
    var found := Lookup(lib, opt.nameMatch, index, field);
    if found.Some? {
      TargetIsNode(field, opt.root);
      ResultConforms(lib, opt, found.value, Target(field, opt.root), field.key);
      FoundFieldIsFine(lib, opt, found.value, field);
    }
  }

  lemma FoundFieldIsFine(lib: Library, opt: Options, data: Node, field: Node)
    requires field.Node? && Target(field, opt.root).Node?
    requires ProjectNode(lib, opt, data, Target(field, opt.root), field.key).Done?
    requires Fine(opt, ProjectNode(lib, opt, data, Target(field, opt.root), field.key), Target(field, opt.root))
    ensures var r := ProjectNode(lib, opt, data, Target(field, opt.root), field.key).node;
            if r.Node? then r.key == field.key && FieldConforms(opt, r.(key := field.key), field) else MayBeAbsent(opt, field)
  {
    var t := Target(field, opt.root);
    if ProjectNode(lib, opt, data, t, field.key).node.Node? {
      ResultName(lib, opt, data, t, field.key);
    }
    if IsRequired(field) && NamesItsType(field, opt.root) {
      RequiredCarriesOver(field, opt.root);
    }
  }
}
