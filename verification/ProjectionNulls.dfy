/** When null, or nothing, comes out of a projection: what becomes of the obligations of required references. */
module ProjectionNulls {
  import opened ByteStrings
  import opened KeyOrder
  import opened Projection
  import opened ProjectionConforms
  import opened Uir

  // Nothing, or a null that stands for nothing.
  predicate IsNothing(out: Outcome) {
    out.Done? && (out.node.NilNode? || IsNull(out.node))
  }

  predicate IsNull(n: Node) {
    n.Node? && n.typ == TypeNull && n.presence == Null
  }

  predicate IsScalar(s: Node) {
    s.Node? && s.typ != TypeArray && !IsRecordType(s.typ)
  }

  // A schema that some data leaves without a value: it is not required, and a default does not help where
  // null is data of its own.
  predicate Lenient(s: Node) {
    s.Node? && !IsRequired(s) && (IsScalar(s) || !HasDefault(s))
  }

  function NullFor(key: GoBytes): (n: Node)
    ensures n.Node? && n.key == key && n.typ == TypeNull && n.presence == Null && n.children == []
  {
    NewNode(TypeNull, key, NoValue)
  }

  function MissingFor(key: GoBytes): (n: Node)
    ensures n.Node? && n.key == key && n.presence == Missing
  {
    var n := NullFor(key);
    n.(presence := Missing)
  }

  // Data that a lenient schema leaves without a value.
  function Absence(s: Node, key: GoBytes): (n: Node)
    ensures n.Node? && n.key == key
  {
    if HasDefault(s) then NullFor(key) else MissingFor(key)
  }

  // ---------- any schema ----------

  // Data there is, but for no record and no list: null only comes from missing data.
  lemma ContainerIsSomething(lib: Library, opt: Options, data: Node, schema: Node, s: Node, name: GoBytes)
    requires schema.Node? && s == Resolved(schema, opt.root) && s.Node? && !IsScalar(s) && !IsMissing(data)
    ensures var out := ProjectNode(lib, opt, data, schema, name);
            out.Done? ==> out.node.Node? && out.node.presence == Present && out.node.typ == if s.typ == TypeArray then TypeArray else TypeMap
  {
    if s.typ == TypeArray {
      assert ProjectNode(lib, opt, data, schema, name) == ProjectArray(lib, opt, data, s, name);
    } else {
      assert ProjectNode(lib, opt, data, schema, name) == ProjectRecord(lib, opt, data, s, name);
    }
  }

  lemma MissingIsApplied(lib: Library, opt: Options, data: Node, schema: Node, s: Node, name: GoBytes)
    requires schema.Node? && s == Resolved(schema, opt.root) && s.Node? && IsMissing(data)
    ensures ProjectNode(lib, opt, data, schema, name) == ApplyMissing(lib, opt, s, name)
  {
    if s.typ == TypeArray {
      assert ProjectNode(lib, opt, data, schema, name) == ProjectArray(lib, opt, data, s, name);
    } else if IsRecordType(s.typ) {
      assert ProjectNode(lib, opt, data, schema, name) == ProjectRecord(lib, opt, data, s, name);
    }
  }

  lemma ScalarIsNull(lib: Library, opt: Options, data: Node, schema: Node, s: Node, name: GoBytes)
    requires schema.Node? && s == Resolved(schema, opt.root) && IsScalar(s) && !IsMissing(data)
    ensures var out := ProjectNode(lib, opt, data, schema, name);
            && (IsNothing(out) ==> !IsRequired(s))
            && (!IsRequired(s) && data.typ == TypeNull ==> out == Done(Stamped(TypeNull, name, NoValue, Null, s)))
  {}

  lemma NothingIsLenient(lib: Library, opt: Options, data: Node, schema: Node, name: GoBytes)
    requires schema.Node? && IsNothing(ProjectNode(lib, opt, data, schema, name))
    ensures Lenient(Resolved(schema, opt.root))
  {
    var s := Resolved(schema, opt.root);
    ResolvedIsNode(schema, opt.root);
    if IsMissing(data) {
      MissingIsApplied(lib, opt, data, schema, s, name);
    } else if IsScalar(s) {
      ScalarIsNull(lib, opt, data, schema, s, name);
    } else {
      ContainerIsSomething(lib, opt, data, schema, s, name);
    }
  }

  lemma LenientGivesNothing(lib: Library, opt: Options, schema: Node, name: GoBytes, key: GoBytes)
    requires schema.Node? && Lenient(Resolved(schema, opt.root))
    ensures IsNothing(ProjectNode(lib, opt, Absence(Resolved(schema, opt.root), key), schema, name))
  {
    var s := Resolved(schema, opt.root);
    if HasDefault(s) {
      ScalarIsNull(lib, opt, NullFor(key), schema, s, name);
    } else {
      MissingIsApplied(lib, opt, MissingFor(key), schema, s, name);
    }
  }

  predicate GivesNothing(lib: Library, opt: Options, data: Node, schema: Node, name: GoBytes) {
    IsNothing(ProjectNode(lib, opt, data, schema, name))
  }

  // Main result: some data projects to nothing or null exactly if the resolved schema is lenient.
  lemma NothingIff(lib: Library, opt: Options, schema: Node, name: GoBytes)
    requires schema.Node?
    ensures (exists data :: GivesNothing(lib, opt, data, schema, name)) <==> Lenient(Resolved(schema, opt.root))
  {
    if Lenient(Resolved(schema, opt.root)) {
      LenientGivesNothing(lib, opt, schema, name, []);
      assert GivesNothing(lib, opt, Absence(Resolved(schema, opt.root), []), schema, name);
    }
    forall data | GivesNothing(lib, opt, data, schema, name) ensures Lenient(Resolved(schema, opt.root)) {
      NothingIsLenient(lib, opt, data, schema, name);
    }
  }

  // ---------- required fields of records ----------

  // What becomes of a field of a record.
  function FieldOf(lib: Library, opt: Options, data: Node, field: Node): Outcome
    requires data.Node?
  {
    ProjectField(lib, opt, data, IndexOf(data.children), field)
  }

  function WithChild(child: Node): Node {
    var empty := NewNode(TypeMap, [], NoValue);
    empty.(children := [child])
  }

  lemma OnlyChild(child: Node)
    ensures IndexOf([child]) == map[KeyOf(child) := child]
  {
    assert [child][..0] == [];
  }

  // A required field can be left without a value exactly if the schema it is projected onto is lenient.
  lemma RequiredFieldIff(lib: Library, opt: Options, field: Node)
    requires field.Node? && IsRequired(field)
    ensures (exists data: Node :: data.Node? && IsNothing(FieldOf(lib, opt, data, field)))
       <==> Lenient(Resolved(Target(field, opt.root), opt.root))
  {
    TargetIsNode(field, opt.root);
    if Lenient(Resolved(Target(field, opt.root), opt.root)) {
      LenientFieldGivesNothing(lib, opt, field);
    }
    forall data: Node | data.Node? && IsNothing(FieldOf(lib, opt, data, field))
      ensures Lenient(Resolved(Target(field, opt.root), opt.root))
    {
      FieldIsLenient(lib, opt, data, field);
    }
  }

  lemma LenientFieldGivesNothing(lib: Library, opt: Options, field: Node)
    requires field.Node? && Target(field, opt.root).Node? && Lenient(Resolved(Target(field, opt.root), opt.root))
    ensures exists data: Node :: data.Node? && IsNothing(FieldOf(lib, opt, data, field))
  {
    var t := Target(field, opt.root);
    var child := Absence(Resolved(t, opt.root), field.key);
    OnlyChild(child);
    LenientGivesNothing(lib, opt, t, field.key, field.key);
    assert Lookup(lib, opt.nameMatch, IndexOf([child]), field) == Some(child);
    FoundFieldGivesNothing(lib, opt, WithChild(child), field, child);
  }

  lemma FoundFieldGivesNothing(lib: Library, opt: Options, data: Node, field: Node, child: Node)
    requires data.Node? && field.Node? && Lookup(lib, opt.nameMatch, IndexOf(data.children), field) == Some(child)
    requires IsNothing(ProjectNode(lib, opt, child, Target(field, opt.root), field.key))
    ensures IsNothing(FieldOf(lib, opt, data, field))
  {}

  lemma FieldIsLenient(lib: Library, opt: Options, data: Node, field: Node)
    requires data.Node? && field.Node? && IsRequired(field) && Target(field, opt.root).Node?
    requires IsNothing(FieldOf(lib, opt, data, field))
    ensures Lenient(Resolved(Target(field, opt.root), opt.root))
  {
    var found := Lookup(lib, opt.nameMatch, IndexOf(data.children), field);
    if found.Some? {
      NothingIsLenient(lib, opt, found.value, Target(field, opt.root), field.key);
    }
  }

  // Main result: a required reference keeps its obligation as the field of a record exactly if it is resolved
  // by its annotation, if at all, or else the type that is found by its key does not leave it without a value.
  lemma RequiredReferenceIff(lib: Library, opt: Options, field: Node)
    requires field.Node? && field.typ == TypeRef && IsRequired(field)
    ensures (forall data: Node | data.Node? :: !IsNothing(FieldOf(lib, opt, data, field)))
       <==> NamesItsType(field, opt.root) || !Lenient(ResolveNamed(field.key, opt.root).value)
  {
    RequiredFieldIff(lib, opt, field);
    if NamesItsType(field, opt.root) {
      RequiredCarriesOver(field, opt.root);
    } else {
      assert ResolveNamed([], opt.root) == None;
      assert Target(field, opt.root) == field;
    }
  }

  // ---------- required references as elements ----------

  predicate GivesNull(out: Outcome) {
    out.Done? && IsNull(out.node)
  }

  predicate NullElement(lib: Library, opt: Options, e: Node, s: Node)
    requires s.Node?
  {
    GivesNull(ProjectElement(lib, opt, e, s))
  }

  // A schema that some data turns into null; nothing at all is an error for an element.
  predicate Nullable(opt: Options, s: Node) {
    !IsRequired(s) && (IsScalar(s) || (opt.emitNull && !HasDefault(s)))
  }

  lemma ElementIsProjected(lib: Library, opt: Options, e: Node, s: Node)
    requires s.Node? && ProjectsElements(s) && ElementSchema(s).Node?
    ensures ProjectElement(lib, opt, e, s) == ProjectNode(lib, opt, e, ElementSchema(s), ItemName(s))
  {}

  lemma NullElementIff(lib: Library, opt: Options, s: Node)
    requires s.Node? && ProjectsElements(s) && ElementSchema(s).Node?
    ensures (exists e :: NullElement(lib, opt, e, s)) <==> Nullable(opt, Resolved(ElementSchema(s), opt.root))
  {
    var elem := ElementSchema(s);
    if Nullable(opt, Resolved(elem, opt.root)) {
      var e := NullableGivesNull(lib, opt, elem, ItemName(s));
      ElementIsProjected(lib, opt, e, s);
      assert NullElement(lib, opt, e, s);
    }
    forall e | NullElement(lib, opt, e, s) ensures Nullable(opt, Resolved(elem, opt.root)) {
      ElementIsProjected(lib, opt, e, s);
      NullIsNullable(lib, opt, e, elem, ItemName(s));
    }
  }

  lemma NullableGivesNull(lib: Library, opt: Options, schema: Node, name: GoBytes) returns (data: Node)
    requires schema.Node? && Nullable(opt, Resolved(schema, opt.root))
    ensures GivesNull(ProjectNode(lib, opt, data, schema, name))
  {
    var s := Resolved(schema, opt.root);
    ResolvedIsNode(schema, opt.root);
    if IsScalar(s) {
      data := NullFor([]);
      ScalarIsNull(lib, opt, data, schema, s, name);
    } else {
      data := MissingFor([]);
      MissingIsApplied(lib, opt, data, schema, s, name);
    }
  }

  lemma NullIsNullable(lib: Library, opt: Options, data: Node, schema: Node, name: GoBytes)
    requires schema.Node? && GivesNull(ProjectNode(lib, opt, data, schema, name))
    ensures Nullable(opt, Resolved(schema, opt.root))
  {
    var s := Resolved(schema, opt.root);
    ResolvedIsNode(schema, opt.root);
    if IsMissing(data) {
      MissingIsApplied(lib, opt, data, schema, s, name);
    } else if IsScalar(s) {
      ScalarIsNull(lib, opt, data, schema, s, name);
    } else {
      ContainerIsSomething(lib, opt, data, schema, s, name);
    }
  }

  // The requiredness of an element that is a reference plays no part: only that of the named type does.
  lemma ReferenceElementIff(lib: Library, opt: Options, s: Node, name: Bytes, named: Node)
    requires s.Node? && ElementSchema(s).Node? && ElementSchema(s).typ == TypeRef
    requires name == (if GqlType(ElementSchema(s)) != [] then GqlType(ElementSchema(s)) else ElementSchema(s).key)
    requires ResolveNamed(name, opt.root) == Some(named)
    ensures (exists e :: NullElement(lib, opt, e, s)) <==> Nullable(opt, named)
  {
    NullElementIff(lib, opt, s);
  }

  // A list of required references to an enum, as the GraphQL list [Color!]! is lowered: null is accepted.
  lemma NullElementIsAccepted(lib: Library, opt: Options, s: Node, name: Bytes, named: Node)
    requires s.Node? && ElementSchema(s).Node? && ElementSchema(s).typ == TypeRef && IsRequired(ElementSchema(s))
    requires GqlType(ElementSchema(s)) == name != [] && ResolveNamed(name, opt.root) == Some(named)
    requires named.Node? && named.typ == TypeEnum && !IsRequired(named)
    ensures NamesItsType(ElementSchema(s), opt.root)
    ensures ProjectElements(lib, opt, [NullFor([])], s) == AllDone([Stamped(TypeNull, ItemName(s), NoValue, Null, named)])
  {
    var elem := ElementSchema(s);
    ScalarIsNull(lib, opt, NullFor([]), elem, named, ItemName(s));
    ElementIsProjected(lib, opt, NullFor([]), s);
    assert [NullFor([])][1..] == [];
    assert ProjectElements(lib, opt, [], s) == AllDone([]);
    assert [Stamped(TypeNull, ItemName(s), NoValue, Null, named)] + [] == [Stamped(TypeNull, ItemName(s), NoValue, Null, named)];
  }

  // The elements of other lists are coerced, and null counts as the zero value of their type, required or not: it
  // stays null exactly if the elements are of type null.
  lemma NullElementBecomesZero(lib: Library, opt: Options, s: Node, e: Node)
    requires s.Node? && !ProjectsElements(s) && e.Node? && (e.typ == TypeNull || e.value.NoValue?)
    ensures ProjectElement(lib, opt, e, s) == Done(NewNode(s.elementType, e.key, ZeroFor(s.elementType)))
    ensures HasTag(s.elementType, ZeroFor(s.elementType))
    ensures NullElement(lib, opt, e, s) <==> s.elementType == TypeNull
  {}

  // ---------- null for a record ----------

  // A field that does not fail for want of data.
  predicate Forgiving(field: Node) {
    field.Node? && (HasDefault(field) || !IsRequired(field))
  }

  lemma {:induction false} EmptyFields(lib: Library, opt: Options, data: Node, fields: seq<Node>)
    requires data.Node? && data.children == []
    requires forall f | f in fields :: Lookup(lib, opt.nameMatch, map[], f).None?
    ensures ProjectFields(lib, opt, data, map[], fields).AllDone? <==> forall f | f in fields :: Forgiving(f)
    decreases |fields|
  {
    if fields != [] {
      EmptyFields(lib, opt, data, fields[1..]);
      var first, more := ProjectField(lib, opt, data, map[], fields[0]), ProjectFields(lib, opt, data, map[], fields[1..]);
      assert fields[0] in fields;
      assert first.Done? <==> Forgiving(fields[0]);
      assert ProjectFields(lib, opt, data, map[], fields) == if first.Failed? then AllFailed else Followed(first.node, more);
      assert forall f :: f in fields <==> f == fields[0] || f in fields[1..];
    }
  }

  lemma {:induction false} NoMatch(lib: Library, policy: NameMatch, keys: seq<GoBytes>, name: GoBytes)
    ensures FirstMatch(lib, policy, map[], keys, name) == None
  {
    if keys != [] {
      NoMatch(lib, policy, keys[1..], name);
    }
  }

  lemma NothingFound(lib: Library, policy: NameMatch, field: Node)
    ensures Lookup(lib, policy, map[], field) == None
  {
    NoMatch(lib, policy, lib.walk(map[]), KeyOf(field));
  }

  // Main result: null as the data of a record type becomes a record, not null - even if the field is required -
  // exactly if no field of the type is required without a default; otherwise the projection fails.
  lemma NullBecomesRecordIff(lib: Library, opt: Options, key: GoBytes, schema: Node, name: GoBytes)
    requires schema.Node? && Resolved(schema, opt.root).Node? && IsRecordType(Resolved(schema, opt.root).typ)
    ensures var out, s := ProjectNode(lib, opt, NullFor(key), schema, name), Resolved(schema, opt.root);
            && (out.Done? <==> forall f | f in s.children :: Forgiving(f))
            && (out.Done? ==> out.node.Node? && out.node.typ == TypeMap && out.node.presence == Present)
  {
    var s := Resolved(schema, opt.root);
    assert IndexOf([]) == map[];
    forall f | f in s.children ensures Lookup(lib, opt.nameMatch, map[], f).None? {
      NothingFound(lib, opt.nameMatch, f);
    }
    EmptyFields(lib, opt, NullFor(key), s.children);
  }
}
