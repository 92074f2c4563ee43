/** Projecting a projected tree again changes nothing. */
module ProjectionStable {
  import opened ByteStrings
  import opened Floats
  import opened KeyOrder
  import opened Projection
  import opened ProjectionConforms
  import opened ProjectionNulls
  import opened Uir

  // ---------- values ----------

  predicate IsQuiet(bits: uint32) {
    var frac := bits % 0x80_0000;
    !((bits / 0x80_0000) % 256 == 255 && 0 < frac < 0x40_0000)
  }

  // Rounding to 32 bits gives no signalling NaN, and undoes widening.
  ghost predicate Rounds(lib: Library) {
    && (forall f: uint64 :: IsQuiet(lib.narrow(f)))
    && (forall b: uint32 | IsQuiet(b) :: lib.narrow(SingleToDouble(b)) == b)
  }

  // A coerced value is left alone by the same coercion.
  lemma CoercedStays(lib: Library, l: Lossiness, typ: UirType, v: Value, t: UirType)
    requires Rounds(lib) && Coerce(lib, l, typ, v, t).Some?
    ensures Coerce(lib, l, t, Coerce(lib, l, typ, v, t).value, t) == Coerce(lib, l, typ, v, t)
  {
    if v.NoValue? || typ == TypeNull {
      ZeroStays(lib, l, t);
    } else if IsInteger(t) {
      IntegerStays(lib, l, v, t);
    } else if t == TypeFloat32 || t == TypeFloat64 {
      FloatStays(lib, l, v, t);
    }
  }

  lemma ZeroStays(lib: Library, l: Lossiness, t: UirType)
    requires Rounds(lib)
    ensures Coerce(lib, l, t, ZeroFor(t), t) == Some(ZeroFor(t))
  {
    if t == TypeFloat32 {
      assert SingleToDouble(0) == 0;
      assert IsQuiet(0);
      assert lib.narrow(SingleToDouble(0)) == 0;
    }
  }

  // The value an integer coercion gives.
  predicate IsIntegerOf(w: Value, t: UirType) {
    if t in {TypeInt32, TypeSInt32, TypeSFixed32} then w.Int32?
    else if t in {TypeInt64, TypeSInt64, TypeSFixed64} then w.Int64?
    else if t in {TypeUInt32, TypeFixed32} then w.Uint32?
    else w.Uint64?
  }

  lemma IntegerStays(lib: Library, l: Lossiness, v: Value, t: UirType)
    requires IsInteger(t) && CoerceInteger(lib, v, t, l).Some?
    ensures Coerce(lib, l, t, CoerceInteger(lib, v, t, l).value, t) == CoerceInteger(lib, v, t, l)
  {
    var w := CoerceInteger(lib, v, t, l).value;
    assert IsIntegerOf(w, t);
    IntegerIsCoerced(lib, l, w, t);
  }

  lemma IntegerIsCoerced(lib: Library, l: Lossiness, w: Value, t: UirType)
    requires IsInteger(t) && IsIntegerOf(w, t)
    ensures Coerce(lib, l, t, w, t) == Some(w)
  {
    assert Coerce(lib, l, t, w, t) == CoerceInteger(lib, w, t, l);
    if w.Int32? {
      LowIsSame(w.i32);
    } else if w.Uint32? {
      assert w.u32 % 0x1_0000_0000 == w.u32;
    }
  }

  lemma LowIsSame(i: int32)
    ensures Low32(i) == i
  {}

  lemma FloatStays(lib: Library, l: Lossiness, v: Value, t: UirType)
    requires Rounds(lib) && (t == TypeFloat32 || t == TypeFloat64) && CoerceFloat(lib, v, t, l).Some?
    ensures Coerce(lib, l, t, CoerceFloat(lib, v, t, l).value, t) == CoerceFloat(lib, v, t, l)
  {
    if t == TypeFloat32 {
      var w := lib.narrow(ToFloat64(lib, v, l).value);
      assert IsQuiet(w);
      assert lib.narrow(SingleToDouble(w)) == w;
    }
  }

  // ---------- schemas on which projection is stable ----------

  // Field f is never found under the key of field g.
  ghost predicate NoClash(lib: Library, policy: NameMatch, f: Node, g: Node) {
    f.Node? && g.Node? ==>
      && f.key != g.key && Annotation(f, Ascii("proto_number")) != g.key && Annotation(f, Ascii("alias")) != g.key
      && (policy == ExactNames || !Matches(lib, policy, g.key, f.key))
  }

  ghost predicate GoodFields(lib: Library, opt: Options, fields: seq<Node>) {
    && (forall i, j | 0 <= i < |fields| && 0 <= j < |fields| && i != j :: NoClash(lib, opt.nameMatch, fields[i], fields[j]))
    && (forall i | 0 <= i < |fields| && fields[i].Node? :: ObligationStays(opt, fields[i]))
  }

  // A required field names its type, see UnnamedRequiredFails.
  ghost predicate ObligationStays(opt: Options, field: Node) {
    IsRequired(field) ==> NamesItsType(field, opt.root)
  }

  // No defaults, no schemas of type null, no names that clash, and required fields that name their types, at
  // any level.
  ghost predicate Plain(lib: Library, opt: Options, n: Node)
    decreases n, 0
  {
    n.NilNode? || (!HasDefault(n) && n.typ != TypeNull && GoodFields(lib, opt, n.children) && AllPlain(lib, opt, n.children))
  }

  ghost predicate AllPlain(lib: Library, opt: Options, nodes: seq<Node>)
    decreases nodes, 1
  {
    forall i | 0 <= i < |nodes| :: Plain(lib, opt, nodes[i])
  }

  // Unknown fields and missing ones are left out, and the schemas are plain.
  ghost predicate Stable(lib: Library, opt: Options) {
    opt.unknown == IgnoreUnknown && !opt.emitNull && Rounds(lib) && Plain(lib, opt, opt.root)
  }

  lemma {:induction false} FoundIsPlain(lib: Library, opt: Options, n: Node, name: Bytes)
    requires Plain(lib, opt, n) && FindNamedType(n, name).Some?
    ensures Plain(lib, opt, FindNamedType(n, name).value)
    decreases n, 0
  {
    if !(n.key == name && IsNamed(n.typ)) {
      FoundAmongIsPlain(lib, opt, n.children, name);
    }
  }

  lemma {:induction false} FoundAmongIsPlain(lib: Library, opt: Options, nodes: seq<Node>, name: Bytes)
    requires AllPlain(lib, opt, nodes) && FindNamedAmong(nodes, name).Some?
    ensures Plain(lib, opt, FindNamedAmong(nodes, name).value)
    decreases nodes, 1
  {
    if FindNamedType(nodes[0], name).Some? {
      FoundIsPlain(lib, opt, nodes[0], name);
    } else {
      FoundAmongIsPlain(lib, opt, nodes[1..], name);
    }
  }

  lemma ResolvedIsPlain(lib: Library, opt: Options, schema: Node)
    requires Stable(lib, opt) && schema.Node? && Plain(lib, opt, schema)
    ensures Resolved(schema, opt.root).Node? && Plain(lib, opt, Resolved(schema, opt.root))
  {
    var name := if GqlType(schema) != [] then GqlType(schema) else schema.key;
    ResolvedIsNode(schema, opt.root);
    if name != [] && FindNamedType(opt.root, name).Some? {
      FoundIsPlain(lib, opt, opt.root, name);
    }
  }

  lemma TargetIsPlain(lib: Library, opt: Options, field: Node)
    requires Stable(lib, opt) && field.Node? && Plain(lib, opt, field)
    ensures Target(field, opt.root).Node? && Plain(lib, opt, Target(field, opt.root))
  {
    TargetIsNode(field, opt.root);
    var found := ResolveNamed(GqlType(field), opt.root);
    if found.Some? {
      FoundIsPlain(lib, opt, opt.root, GqlType(field));
      FoundIsNamed(opt.root, GqlType(field));
      CloneIsPlain(lib, opt, found.value, field);
    }
  }

  lemma CloneIsPlain(lib: Library, opt: Options, named: Node, field: Node)
    requires named.Node? && field.Node? && Plain(lib, opt, named) && Plain(lib, opt, field)
    ensures Plain(lib, opt, named.(key := field.key, cardinality := field.cardinality,
                                   annotations := named.annotations + field.annotations))
  {}

  // ---------- a record found again ----------

  // The nodes are those of the fields, in order, and fields without one are allowed to be absent.
  ghost predicate FieldNodes(lib: Library, opt: Options, nodes: seq<Node>, fields: seq<Node>)
    decreases |fields|
  {
    if fields == [] then nodes == []
    else
      && fields[0].Node?
      && if nodes != [] && nodes[0].Node? && nodes[0].key == fields[0].key then
           && ProjectNode(lib, opt, nodes[0], Target(fields[0], opt.root), fields[0].key) == Done(nodes[0])
           && FieldNodes(lib, opt, nodes[1..], fields[1..])
         else !IsRequired(fields[0]) && FieldNodes(lib, opt, nodes, fields[1..])
  }

  // Every node has the key of a field.
  ghost predicate Known(nodes: seq<Node>, fields: seq<Node>) {
    forall n | n in nodes :: n.Node? && HasField(fields, n.key)
  }

  ghost predicate HasField(fields: seq<Node>, key: GoBytes) {
    exists j :: 0 <= j < |fields| && fields[j].Node? && fields[j].key == key
  }

  lemma {:induction false} NodesAreKnown(lib: Library, opt: Options, nodes: seq<Node>, fields: seq<Node>)
    requires FieldNodes(lib, opt, nodes, fields)
    ensures Known(nodes, fields)
    decreases |fields|
  {
    if fields != [] {
      var taken := nodes != [] && nodes[0].Node? && nodes[0].key == fields[0].key;
      var rest := if taken then nodes[1..] else nodes;
      NodesAreKnown(lib, opt, rest, fields[1..]);
      forall n | n in nodes ensures n.Node? && HasField(fields, n.key) {
        if n in rest {
          var j :| 0 <= j < |fields[1..]| && fields[1..][j].Node? && fields[1..][j].key == n.key;
          assert fields[j + 1].key == n.key;
        } else {
          assert n == nodes[0] && fields[0].key == n.key;
        }
      }
    }
  }

  ghost predicate DistinctFields(fields: seq<Node>) {
    forall i, j | 0 <= i < j < |fields| && fields[i].Node? && fields[j].Node? :: fields[i].key != fields[j].key
  }

  lemma {:induction false} NodesAreDistinct(lib: Library, opt: Options, nodes: seq<Node>, fields: seq<Node>)
    requires FieldNodes(lib, opt, nodes, fields) && DistinctFields(fields)
    ensures DistinctNodeKeys(nodes)
    decreases |fields|
  {
    if fields != [] {
      if nodes != [] && nodes[0].Node? && nodes[0].key == fields[0].key {
        NodesAreDistinct(lib, opt, nodes[1..], fields[1..]);
        NodesAreKnown(lib, opt, nodes[1..], fields[1..]);
        FirstIsNew(nodes, fields);
      } else {
        NodesAreDistinct(lib, opt, nodes, fields[1..]);
      }
    }
  }

  lemma FirstIsNew(nodes: seq<Node>, fields: seq<Node>)
    requires nodes != [] && fields != [] && nodes[0].Node? && fields[0].Node? && nodes[0].key == fields[0].key
    requires DistinctFields(fields) && DistinctNodeKeys(nodes[1..]) && Known(nodes[1..], fields[1..])
    ensures DistinctNodeKeys(nodes)
  {
    var more := nodes[1..];
    forall j | 0 <= j < |more| ensures KeyOf(more[j]) != KeyOf(nodes[0]) {
      assert more[j] in more;
      var k :| 0 <= k < |fields[1..]| && fields[1..][k].Node? && fields[1..][k].key == more[j].key;
      assert fields[k + 1].key != fields[0].key;
    }
    forall i, j | 0 <= i < j < |nodes| ensures KeyOf(nodes[i]) != KeyOf(nodes[j]) {
      assert nodes[j] == more[j - 1] && (i > 0 ==> nodes[i] == more[i - 1]);
    }
  }

  lemma {:induction false} IndexFinds(nodes: seq<Node>, m: nat)
    requires m < |nodes| && DistinctNodeKeys(nodes)
    ensures KeyOf(nodes[m]) in IndexOf(nodes) && IndexOf(nodes)[KeyOf(nodes[m])] == nodes[m]
    decreases nodes
  {
    if m < |nodes| - 1 {
      IndexFinds(nodes[..|nodes| - 1], m);
    }
  }

  // A field is not found when the index only holds keys of other fields.
  lemma AbsentIsNotFound(lib: Library, opt: Options, index: map<GoBytes, Node>, all: seq<Node>, i: nat)
    requires GoodFields(lib, opt, all) && i < |all| && all[i].Node?
    requires forall k | k in index :: exists j :: 0 <= j < |all| && j != i && all[j].Node? && all[j].key == k
    ensures Lookup(lib, opt.nameMatch, index, all[i]).None?
  {
    var f := all[i];
    forall k | k in index
      ensures k != f.key && k != Annotation(f, Ascii("proto_number")) && k != Annotation(f, Ascii("alias"))
      ensures opt.nameMatch == ExactNames || !Matches(lib, opt.nameMatch, k, f.key)
    {
      var j :| 0 <= j < |all| && j != i && all[j].Node? && all[j].key == k;
      assert NoClash(lib, opt.nameMatch, all[i], all[j]);
    }
    if opt.nameMatch != ExactNames {
      NothingMatches(lib, opt.nameMatch, index, lib.walk(index), f.key);
    }
  }

  lemma {:induction false} NothingMatches(lib: Library, policy: NameMatch, index: map<GoBytes, Node>, keys: seq<GoBytes>, name: GoBytes)
    requires forall k | k in index :: !Matches(lib, policy, k, name)
    ensures FirstMatch(lib, policy, index, keys, name).None?
  {
    if keys != [] {
      NothingMatches(lib, policy, index, keys[1..], name);
    }
  }

  // ---------- the second projection of a record ----------

  // The children of the record that are not among `nodes` belong to the first i fields.
  ghost predicate Passed(children: seq<Node>, nodes: seq<Node>, all: seq<Node>, i: nat)
    requires i <= |all|
  {
    forall n | n in children :: n.Node? && (n in nodes || HasField(all[..i], n.key))
  }

  // A record whose children are about to be found again, ...
  ghost predicate SecondPass(lib: Library, opt: Options, r: Node, all: seq<Node>) {
    Stable(lib, opt) && r.Node? && DistinctNodeKeys(r.children) && GoodFields(lib, opt, all) && AllPlain(lib, opt, all)
  }

  // ... with `nodes` still to be found by the fields from number i on.
  ghost predicate Pending(lib: Library, opt: Options, r: Node, all: seq<Node>, i: nat, nodes: seq<Node>) {
    && r.Node? && i <= |all| && FieldNodes(lib, opt, nodes, all[i..])
    && (forall n | n in nodes :: n in r.children) && Passed(r.children, nodes, all, i)
  }

  lemma {:induction false} FieldsAgain(lib: Library, opt: Options, r: Node, index: map<GoBytes, Node>, all: seq<Node>, i: nat,
                                       nodes: seq<Node>)
    requires SecondPass(lib, opt, r, all) && Pending(lib, opt, r, all, i, nodes) && index == IndexOf(r.children)
    ensures ProjectFields(lib, opt, r, index, all[i..]) == AllDone(nodes)
    decreases |all| - i
  {
    if i < |all| {
      var n, rest := FieldAgain(lib, opt, r, index, all, i, nodes);
      FieldsAgain(lib, opt, r, index, all, i + 1, rest);
      assert all[i..][1..] == all[i + 1..];
      FieldInFront(lib, opt, r, index, all[i..], n, rest);
    }
  }

  lemma FieldAgain(lib: Library, opt: Options, r: Node, index: map<GoBytes, Node>, all: seq<Node>, i: nat, nodes: seq<Node>)
    returns (n: Node, rest: seq<Node>)
    requires SecondPass(lib, opt, r, all) && Pending(lib, opt, r, all, i, nodes) && index == IndexOf(r.children) && i < |all|
    ensures ProjectField(lib, opt, r, index, all[i]) == Done(n)
    ensures nodes == if n.NilNode? then rest else [n] + rest
    ensures Pending(lib, opt, r, all, i + 1, rest)
  {
    assert all[i..][0] == all[i] && all[i..][1..] == all[i + 1..];
    if nodes != [] && nodes[0].Node? && nodes[0].key == all[i].key {
      n, rest := nodes[0], nodes[1..];
      PassesOn(r.children, nodes, rest, all, i);
      PresentAgain(lib, opt, r, index, all[i], n);
    } else {
      n, rest := NilNode, nodes;
      PassesOn(r.children, nodes, rest, all, i);
      AbsentAgain(lib, opt, r, index, all, i, nodes);
    }
  }

  lemma FieldInFront(lib: Library, opt: Options, r: Node, index: map<GoBytes, Node>, fields: seq<Node>, n: Node, rest: seq<Node>)
    requires r.Node? && (forall k | k in index :: index[k] in r.children) && fields != []
    requires ProjectField(lib, opt, r, index, fields[0]) == Done(n)
    requires ProjectFields(lib, opt, r, index, fields[1..]) == AllDone(rest)
    ensures ProjectFields(lib, opt, r, index, fields) == AllDone(if n.NilNode? then rest else [n] + rest)
  {}

  lemma PassesOn(children: seq<Node>, nodes: seq<Node>, rest: seq<Node>, all: seq<Node>, i: nat)
    requires i < |all| && all[i].Node? && Passed(children, nodes, all, i)
    requires rest == nodes || (nodes != [] && rest == nodes[1..] && nodes[0].Node? && nodes[0].key == all[i].key)
    ensures Passed(children, rest, all, i + 1)
  {
    forall n | n in children ensures n.Node? && (n in rest || HasField(all[..i + 1], n.key)) {
      if n in nodes && n !in rest {
        assert all[..i + 1][i].key == n.key;
      } else if n !in nodes {
        var j :| 0 <= j < |all[..i]| && all[..i][j].Node? && all[..i][j].key == n.key;
        assert all[..i + 1][j].key == n.key;
      }
    }
  }

  lemma PresentAgain(lib: Library, opt: Options, r: Node, index: map<GoBytes, Node>, f: Node, n: Node)
    requires r.Node? && index == IndexOf(r.children) && DistinctNodeKeys(r.children)
    requires f.Node? && n.Node? && n.key == f.key && n in r.children
    requires ProjectNode(lib, opt, n, Target(f, opt.root), f.key) == Done(n)
    ensures ProjectField(lib, opt, r, index, f) == Done(n)
  {
    var m :| 0 <= m < |r.children| && r.children[m] == n;
    IndexFinds(r.children, m);
  }

  lemma AbsentAgain(lib: Library, opt: Options, r: Node, index: map<GoBytes, Node>, all: seq<Node>, i: nat, nodes: seq<Node>)
    requires Stable(lib, opt) && r.Node? && index == IndexOf(r.children)
    requires i < |all| && all[i].Node? && GoodFields(lib, opt, all) && AllPlain(lib, opt, all)
    requires Passed(r.children, nodes, all, i) && FieldNodes(lib, opt, nodes, all[i + 1..]) && !IsRequired(all[i])
    ensures ProjectField(lib, opt, r, index, all[i]) == Done(NilNode)
  {
    NodesAreKnown(lib, opt, nodes, all[i + 1..]);
    forall k | k in index ensures exists j :: 0 <= j < |all| && j != i && all[j].Node? && all[j].key == k {
      var n := index[k];
      assert n in r.children;
      if n in nodes {
        var j :| 0 <= j < |all[i + 1..]| && all[i + 1..][j].Node? && all[i + 1..][j].key == n.key;
        assert all[i + 1 + j].key == k;
      } else {
        var j :| 0 <= j < |all[..i]| && all[..i][j].Node? && all[..i][j].key == n.key;
        assert all[j].key == k;
      }
    }
    AbsentIsNotFound(lib, opt, index, all, i);
    assert Plain(lib, opt, all[i]);
    NothingForField(lib, opt, r, index, all[i]);
  }

  lemma NothingForField(lib: Library, opt: Options, r: Node, index: map<GoBytes, Node>, field: Node)
    requires r.Node? && (forall k | k in index :: index[k] in r.children) && field.Node? && Plain(lib, opt, field)
    requires !opt.emitNull && !IsRequired(field) && Lookup(lib, opt.nameMatch, index, field).None?
    ensures ProjectField(lib, opt, r, index, field) == Done(NilNode)
  {}

  // ---------- projecting again ----------

  // A result that projects to itself.
  ghost predicate Settled(lib: Library, opt: Options, out: Outcome, schema: Node, name: GoBytes) {
    out.Done? && out.node.Node? ==> ProjectNode(lib, opt, out.node, schema, name) == out
  }

  // Main result: with unknown and missing fields left out, on plain schemas, projecting the result of a
  // projection again changes nothing.
  lemma {:induction false} ProjectionIsIdempotent(lib: Library, opt: Options, data: Node, schema: Node, name: GoBytes)
    requires Stable(lib, opt) && schema.Node? && Plain(lib, opt, schema)
    ensures Settled(lib, opt, ProjectNode(lib, opt, data, schema, name), schema, name)
    decreases data, 3
  {
    var s := Resolved(schema, opt.root);
    ResolvedIsPlain(lib, opt, schema);
    if IsMissing(data) {
      assert ProjectNode(lib, opt, data, schema, name) == ApplyMissing(lib, opt, s, name);
    } else if s.typ == TypeArray {
      ArrayAgain(lib, opt, data, schema, s, name);
    } else if IsRecordType(s.typ) {
      RecordAgain(lib, opt, data, schema, s, name);
    } else {
      ScalarAgain(lib, opt, data, schema, s, name);
    }
  }

  lemma ScalarAgain(lib: Library, opt: Options, data: Node, schema: Node, s: Node, name: GoBytes)
    requires Stable(lib, opt) && schema.Node? && s == Resolved(schema, opt.root) && s.Node? && s.typ != TypeNull
    requires !IsMissing(data) && s.typ != TypeArray && !IsRecordType(s.typ)
    ensures Settled(lib, opt, ProjectNode(lib, opt, data, schema, name), schema, name)
  {
    assert ProjectNode(lib, opt, data, schema, name) == ProjectScalar(lib, opt, data, s, name);
    if data.typ != TypeNull && data.presence != Null && Coerce(lib, opt.lossiness, data.typ, data.value, s.typ).Some? {
      CoercedStays(lib, opt.lossiness, data.typ, data.value, s.typ);
    }
  }

  lemma {:induction false} RecordAgain(lib: Library, opt: Options, data: Node, schema: Node, s: Node, name: GoBytes)
    requires Stable(lib, opt) && schema.Node? && s == Resolved(schema, opt.root) && s.Node? && Plain(lib, opt, s)
    requires !IsMissing(data) && IsRecordType(s.typ)
    ensures Settled(lib, opt, ProjectNode(lib, opt, data, schema, name), schema, name)
    decreases data, 2
  {
    assert ProjectNode(lib, opt, data, schema, name) == ProjectRecord(lib, opt, data, s, name);
    if NilNode !in data.children && ProjectFields(lib, opt, data, IndexOf(data.children), s.children).AllDone? {
      var nodes := ProjectFields(lib, opt, data, IndexOf(data.children), s.children).nodes;
      RecordIsItsFields(lib, opt, data, s, name);
      FieldsSettle(lib, opt, data, IndexOf(data.children), s.children);
      RecordSettles(lib, opt, schema, s, name, nodes);
    }
  }

  lemma RecordSettles(lib: Library, opt: Options, schema: Node, s: Node, name: GoBytes, nodes: seq<Node>)
    requires Stable(lib, opt) && schema.Node? && s == Resolved(schema, opt.root) && s.Node? && Plain(lib, opt, s)
    requires IsRecordType(s.typ) && FieldNodes(lib, opt, nodes, s.children)
    ensures var r := Container(TypeMap, name, nodes, s);
            ProjectNode(lib, opt, r, schema, name) == Done(r)
  {
    var r := Container(TypeMap, name, nodes, s);
    FieldsOfRecord(lib, opt, s.children, r);
    RecordIsItsFields(lib, opt, r, s, name);
    assert ProjectNode(lib, opt, r, schema, name) == ProjectRecord(lib, opt, r, s, name);
  }

  lemma FieldsOfRecord(lib: Library, opt: Options, fields: seq<Node>, r: Node)
    requires Stable(lib, opt) && r.Node? && FieldNodes(lib, opt, r.children, fields)
    requires GoodFields(lib, opt, fields) && AllPlain(lib, opt, fields)
    ensures NilNode !in r.children && ProjectFields(lib, opt, r, IndexOf(r.children), fields) == AllDone(r.children)
  {
    GoodAreDistinct(lib, opt, fields);
    NodesAreDistinct(lib, opt, r.children, fields);
    NodesAreKnown(lib, opt, r.children, fields);
    assert fields[0..] == fields;
    FieldsAgain(lib, opt, r, IndexOf(r.children), fields, 0, r.children);
  }

  lemma GoodAreDistinct(lib: Library, opt: Options, fields: seq<Node>)
    requires GoodFields(lib, opt, fields)
    ensures DistinctFields(fields)
  {
    forall i, j | 0 <= i < j < |fields| && fields[i].Node? && fields[j].Node? ensures fields[i].key != fields[j].key {
      assert NoClash(lib, opt.nameMatch, fields[i], fields[j]);
    }
  }

  lemma {:induction false} FieldsSettle(lib: Library, opt: Options, data: Node, index: map<GoBytes, Node>, fields: seq<Node>)
    requires Stable(lib, opt) && data.Node? && forall k | k in index :: index[k] in data.children
    requires GoodFields(lib, opt, fields) && AllPlain(lib, opt, fields)
    requires ProjectFields(lib, opt, data, index, fields).AllDone?
    ensures FieldNodes(lib, opt, ProjectFields(lib, opt, data, index, fields).nodes, fields)
    decreases data, 1, |fields|
  {
    if fields != [] {
      var nodes, rest := ProjectFields(lib, opt, data, index, fields).nodes, ProjectFields(lib, opt, data, index, fields[1..]).nodes;
      assert Plain(lib, opt, fields[0]) && ObligationStays(opt, fields[0]);
      FieldSettles(lib, opt, data, index, fields[0]);
      RestIsGood(lib, opt, fields);
      FieldsSettle(lib, opt, data, index, fields[1..]);
      var first := ProjectField(lib, opt, data, index, fields[0]).node;
      if first.Node? {
        assert nodes[0] == first && nodes[1..] == rest;
      } else {
        KeyIsFree(lib, opt, rest, fields);
      }
    }
  }

  lemma RestIsGood(lib: Library, opt: Options, fields: seq<Node>)
    requires fields != [] && GoodFields(lib, opt, fields)
    ensures GoodFields(lib, opt, fields[1..])
  {
    forall i, j | 0 <= i < |fields[1..]| && 0 <= j < |fields[1..]| && i != j
      ensures NoClash(lib, opt.nameMatch, fields[1..][i], fields[1..][j])
    {
      assert NoClash(lib, opt.nameMatch, fields[i + 1], fields[j + 1]);
    }
  }

  // The nodes of later fields do not have the key of the first one.
  lemma KeyIsFree(lib: Library, opt: Options, nodes: seq<Node>, fields: seq<Node>)
    requires fields != [] && fields[0].Node? && GoodFields(lib, opt, fields) && FieldNodes(lib, opt, nodes, fields[1..])
    ensures nodes != [] ==> nodes[0].Node? && nodes[0].key != fields[0].key
  {
    NodesAreKnown(lib, opt, nodes, fields[1..]);
    if nodes != [] {
      assert nodes[0] in nodes;
      var j :| 0 <= j < |fields[1..]| && fields[1..][j].Node? && fields[1..][j].key == nodes[0].key;
      assert NoClash(lib, opt.nameMatch, fields[0], fields[j + 1]);
    }
  }

  lemma {:induction false} FieldSettles(lib: Library, opt: Options, data: Node, index: map<GoBytes, Node>, field: Node)
    requires Stable(lib, opt) && data.Node? && forall k | k in index :: index[k] in data.children
    requires Plain(lib, opt, field) && ObligationStays(opt, field) && ProjectField(lib, opt, data, index, field).Done?
    ensures field.Node?
    ensures var r := ProjectField(lib, opt, data, index, field).node;
            if r.Node? then r.key == field.key && ProjectNode(lib, opt, r, Target(field, opt.root), field.key) == Done(r)
            else !IsRequired(field)
    decreases data, 0
  {
    var found := Lookup(lib, opt.nameMatch, index, field);
    if found.Some? {
      var t := Target(field, opt.root);
      TargetIsPlain(lib, opt, field);
      ProjectionIsIdempotent(lib, opt, found.value, t, field.key);
      FoundSettles(lib, opt, found.value, field, t);
    }
  }

  lemma FoundSettles(lib: Library, opt: Options, data: Node, field: Node, t: Node)
    requires Stable(lib, opt) && field.Node? && ObligationStays(opt, field) && t == Target(field, opt.root) && t.Node?
    requires ProjectNode(lib, opt, data, t, field.key).Done?
    requires Settled(lib, opt, ProjectNode(lib, opt, data, t, field.key), t, field.key)
    ensures var r := ProjectNode(lib, opt, data, t, field.key).node;
            if r.Node? then r.key == field.key && ProjectNode(lib, opt, r.(key := field.key), t, field.key) == Done(r)
            else !IsRequired(field)
  {
    var r := ProjectNode(lib, opt, data, t, field.key).node;
    if r.Node? {
      ResultName(lib, opt, data, t, field.key);
    } else {
      ResultConforms(lib, opt, data, t, field.key);
      if IsRequired(field) {
        RequiredCarriesOver(field, opt.root);
      }
    }
  }

  lemma {:induction false} ArrayAgain(lib: Library, opt: Options, data: Node, schema: Node, s: Node, name: GoBytes)
    requires Stable(lib, opt) && schema.Node? && s == Resolved(schema, opt.root) && s.Node? && Plain(lib, opt, s)
    requires !IsMissing(data) && s.typ == TypeArray
    ensures Settled(lib, opt, ProjectNode(lib, opt, data, schema, name), schema, name)
    decreases data, 2
  {
    assert ProjectNode(lib, opt, data, schema, name) == ProjectArray(lib, opt, data, s, name);
    if data.typ == TypeArray && ProjectElements(lib, opt, data.children, s).AllDone? {
      var nodes := ProjectElements(lib, opt, data.children, s).nodes;
      ElementsSettle(lib, opt, data.children, s);
      var r := Container(TypeArray, name, nodes, s);
      assert ProjectNode(lib, opt, r, schema, name) == ProjectArray(lib, opt, r, s, name);
    }
  }

  lemma {:induction false} ElementsSettle(lib: Library, opt: Options, elements: seq<Node>, s: Node)
    requires Stable(lib, opt) && s.Node? && Plain(lib, opt, s) && ProjectElements(lib, opt, elements, s).AllDone?
    ensures var nodes := ProjectElements(lib, opt, elements, s).nodes;
            ProjectElements(lib, opt, nodes, s) == AllDone(nodes)
    decreases elements, 1
  {
    if elements != [] {
      var first, rest := ProjectElement(lib, opt, elements[0], s).node, ProjectElements(lib, opt, elements[1..], s).nodes;
      ElementSettles(lib, opt, elements[0], s);
      ElementsSettle(lib, opt, elements[1..], s);
      var nodes := [first] + rest;
      assert nodes[1..] == rest;
    }
  }

  lemma {:induction false} ElementSettles(lib: Library, opt: Options, element: Node, s: Node)
    requires Stable(lib, opt) && s.Node? && Plain(lib, opt, s)
    requires ProjectElement(lib, opt, element, s).Done? && ProjectElement(lib, opt, element, s).node.Node?
    ensures ProjectElement(lib, opt, ProjectElement(lib, opt, element, s).node, s) == ProjectElement(lib, opt, element, s)
    decreases element, 4
  {
    if ProjectsElements(s) {
      assert Plain(lib, opt, ElementSchema(s));
      ProjectionIsIdempotent(lib, opt, element, ElementSchema(s), ItemName(s));
    } else {
      CoercedStays(lib, opt.lossiness, element.typ, element.value, s.elementType);
    }
  }

  // ---------- what schemas that are not plain do ----------

  // A required reference without annotation, whose data is marked as missing, is left out by the first projection
  // if the type found by its key allows that; the second one fails.
  lemma UnnamedRequiredFails(lib: Library, opt: Options, s: Node, field: Node, name: GoBytes)
    requires opt.unknown == IgnoreUnknown && !opt.emitNull
    requires s.Node? && IsRecordType(s.typ) && s.children == [field] && Resolved(s, opt.root) == s
    requires field.Node? && field.typ == TypeRef && IsRequired(field) && !HasDefault(field) && GqlType(field) == []
    requires ResolveNamed(field.key, opt.root).Some? && Omittable(ResolveNamed(field.key, opt.root).value)
    ensures !ObligationStays(opt, field)
    ensures var out := ProjectNode(lib, opt, WithChild(MissingFor(field.key)), s, name);
            out == Done(Container(TypeMap, name, [], s)) && ProjectNode(lib, opt, out.node, s, name) == Failed
  {
    var data, r := WithChild(MissingFor(field.key)), Container(TypeMap, name, [], s);
    OnlyChild(MissingFor(field.key));
    MissingIsLeftOut(lib, opt, field);
    OneField(lib, opt, data, s, field, name);
    assert IndexOf([]) == map[];
    NothingFound(lib, opt.nameMatch, field);
    OneField(lib, opt, r, s, field, name);
  }

  lemma MissingIsLeftOut(lib: Library, opt: Options, field: Node)
    requires !opt.emitNull && field.Node? && field.typ == TypeRef && GqlType(field) == []
    requires ResolveNamed(field.key, opt.root).Some? && Omittable(ResolveNamed(field.key, opt.root).value)
    ensures var data := WithChild(MissingFor(field.key));
            ProjectField(lib, opt, data, IndexOf(data.children), field) == Done(NilNode)
  {
    var child := MissingFor(field.key);
    OnlyChild(child);
    assert ResolveNamed([], opt.root) == None && Target(field, opt.root) == field;
    MissingIsApplied(lib, opt, child, field, Resolved(field, opt.root), field.key);
    assert Lookup(lib, opt.nameMatch, IndexOf([child]), field) == Some(child);
  }

  function Alone(first: Outcome, s: Node, name: GoBytes): Outcome
    requires s.Node?
  {
    if first.Failed? then Failed else Done(Container(TypeMap, name, if first.node.NilNode? then [] else [first.node], s))
  }

  // A record with one field in its schema.
  lemma OneField(lib: Library, opt: Options, data: Node, s: Node, field: Node, name: GoBytes)
    requires opt.unknown == IgnoreUnknown && s.Node? && IsRecordType(s.typ) && s.children == [field] && Resolved(s, opt.root) == s
    requires data.Node? && !IsMissing(data) && NilNode !in data.children
    ensures ProjectNode(lib, opt, data, s, name) == Alone(ProjectField(lib, opt, data, IndexOf(data.children), field), s, name)
  {
    var index := IndexOf(data.children);
    var first := ProjectField(lib, opt, data, index, field);
    assert ProjectNode(lib, opt, data, s, name) == ProjectRecord(lib, opt, data, s, name);
    assert [field][1..] == [] && ProjectFields(lib, opt, data, index, []) == AllDone([]);
    assert ProjectFields(lib, opt, data, index, [field]) == if first.Failed? then AllFailed else Followed(first.node, AllDone([]));
    if first.Done? {
      RecordIsItsFields(lib, opt, data, s, name);
    }
  }

  // A schema of type null turns any value into a null that is present; the second projection takes that for null
  // data and marks it, or fails if it is required.
  lemma NullSchemaChanges(lib: Library, opt: Options, data: Node, schema: Node, name: GoBytes)
    requires schema.Node? && Resolved(schema, opt.root).Node? && Resolved(schema, opt.root).typ == TypeNull
    requires !IsMissing(data) && data.typ != TypeNull && data.presence != Null
    ensures var s, out := Resolved(schema, opt.root), ProjectNode(lib, opt, data, schema, name);
            && out == Done(Stamped(TypeNull, name, NoValue, Present, s))
            && ProjectNode(lib, opt, out.node, schema, name)
            == (if IsRequired(s) then Failed else Done(Stamped(TypeNull, name, NoValue, Null, s)))
            && !Settled(lib, opt, out, schema, name)
  {}
}
