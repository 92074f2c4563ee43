/** How a projection finds things by name: the type a name stands for, and the data a field is filled from. */
module ProjectionNames {
  import opened ByteStrings
  import opened KeyOrder
  import opened Projection
  import opened Uir

  // ---------- types ----------

  // The nodes of a tree from top to bottom, each in front of its children.
  function Preorder(n: Node): seq<Node>
    decreases n, 0
  {
    if n.NilNode? then [] else [n] + PreorderAll(n.children)
  }

  function PreorderAll(nodes: seq<Node>): seq<Node>
    decreases nodes, 1
  {
    if nodes == [] then [] else Preorder(nodes[0]) + PreorderAll(nodes[1..])
  }

  predicate IsTypeNamed(n: Node, name: Bytes) {
    n.Node? && n.key == name
    && (n.typ == TypeMap || n.typ == TypeEnum || n.typ == TypeUnion || n.typ == TypeInterface || n.typ == TypeDefinition)
  }

  // What is found in a list is the first type of the name, if there is one.
  ghost predicate IsFirst(found: Option<Node>, nodes: seq<Node>, name: Bytes) {
    if found.None? then forall i | 0 <= i < |nodes| :: !IsTypeNamed(nodes[i], name)
    else exists i :: 0 <= i < |nodes| && FirstAt(found.value, nodes, name, i)
  }

  ghost predicate FirstAt(n: Node, nodes: seq<Node>, name: Bytes, i: nat)
    requires i < |nodes|
  {
    nodes[i] == n && IsTypeNamed(n, name) && forall k | 0 <= k < i :: !IsTypeNamed(nodes[k], name)
  }

  // Main result: a name stands for the first type of that name in the schema, from top to bottom.
  lemma {:induction false} FoundIsFirst(n: Node, name: Bytes)
    ensures IsFirst(FindNamedType(n, name), Preorder(n), name)
    decreases n, 0
  {
    if n.Node? {
      if IsTypeNamed(n, name) {
        assert FirstAt(n, Preorder(n), name, 0);
      } else {
        FoundAmongIsFirst(n.children, name);
        FirstBehind(FindNamedAmong(n.children, name), [n], PreorderAll(n.children), Preorder(n), name);
      }
    }
  }

  lemma {:induction false} FoundAmongIsFirst(nodes: seq<Node>, name: Bytes)
    ensures IsFirst(FindNamedAmong(nodes, name), PreorderAll(nodes), name)
    decreases nodes, 1
  {
    if nodes != [] {
      var front, back := Preorder(nodes[0]), PreorderAll(nodes[1..]);
      var found := FindNamedType(nodes[0], name);
      FoundIsFirst(nodes[0], name);
      FoundAmongIsFirst(nodes[1..], name);
      if found.Some? {
        var i :| 0 <= i < |front| && FirstAt(found.value, front, name, i);
        assert FirstAt(found.value, front + back, name, i);
      } else {
        FirstBehind(FindNamedAmong(nodes[1..], name), front, back, PreorderAll(nodes), name);
      }
    }
  }

  lemma FirstBehind(found: Option<Node>, front: seq<Node>, back: seq<Node>, all: seq<Node>, name: Bytes)
    requires all == front + back && IsFirst(found, back, name)
    requires forall i | 0 <= i < |front| :: !IsTypeNamed(front[i], name)
    ensures IsFirst(found, all, name)
  {
    if found.Some? {
      var i :| 0 <= i < |back| && FirstAt(found.value, back, name, i);
      assert FirstAt(found.value, all, name, |front| + i);
    }
  }

  // A reference that is followed as a field takes over type, elements and children of the type it names, and keeps its
  // own key, cardinality and, where they differ, annotations.
  lemma TargetCombines(field: Node, root: Node, a: Bytes)
    requires field.Node? && field.typ == TypeRef && GqlType(field) != [] && FindNamedType(root, GqlType(field)).Some?
    requires FindNamedType(root, GqlType(field)).value.Node?
    ensures var named, t := FindNamedType(root, GqlType(field)).value, Target(field, root);
            && t.Node? && t.typ == named.typ && t.elementType == named.elementType && t.children == named.children
            && t.key == field.key && t.cardinality == field.cardinality && t.defaultValue == named.defaultValue
            && Annotation(t, a) == if a in field.annotations then field.annotations[a] else Annotation(named, a)
  {}

  // A reference stands for the first type that its annotation names, or without one its key; for itself if there is none.
  lemma {:induction false} ReferenceStandsFor(schema: Node, root: Node)
    requires schema.Node?
    ensures schema.typ != TypeRef ==> Resolved(schema, root) == schema
    ensures var name := if Annotation(schema, Ascii("gql_type")) != [] then Annotation(schema, Ascii("gql_type")) else schema.key;
            schema.typ == TypeRef && name != [] ==>
              if Resolved(schema, root) != schema then IsFirst(Some(Resolved(schema, root)), Preorder(root), name)
              else IsFirst(None, Preorder(root), name) || IsFirst(Some(schema), Preorder(root), name)
  {
    FoundIsFirst(root, if GqlType(schema) != [] then GqlType(schema) else schema.key);
  }

  // The elements of a list are projected onto its first child if that is a map or a reference, and named after the list;
  // the elements of a list of scalars are coerced to the element type and keep their keys.
  lemma {:induction false} ElementsAreMade(lib: Library, opt: Options, e: Node, s: Node, first: Node)
    requires s.Node? && s.typ == TypeArray && s.children != [] && first == s.children[0] && first.Node? && e.Node?
    requires |s.key| + 5 < TWO_64
    ensures first.typ == TypeMap || first.typ == TypeRef ==>
              ProjectElement(lib, opt, e, s) == ProjectNode(lib, opt, e, first, s.key + [0x5F, 0x69, 0x74, 0x65, 0x6D])
    ensures first.typ != TypeMap && first.typ != TypeRef && s.elementType != TypeMap ==>
              var v, out := Coerce(lib, opt.lossiness, e.typ, e.value, s.elementType), ProjectElement(lib, opt, e, s);
              if v.None? then out.Failed?
              else out.Done? && out.node.Node? && out.node.typ == s.elementType && out.node.key == e.key && out.node.value == v.value
  {
    assert Ascii("_item") == [0x5F, 0x69, 0x74, 0x65, 0x6D];
  }

  // ---------- data ----------

  // The last of the children with a name.
  ghost predicate IsLast(children: seq<Node>, name: Bytes, n: Node) {
    exists i :: 0 <= i < |children| && LastAt(children, name, n, i)
  }

  ghost predicate LastAt(children: seq<Node>, name: Bytes, n: Node, i: nat)
    requires i < |children|
  {
    children[i] == n && KeyOf(n) == name && forall k | i < k < |children| :: KeyOf(children[k]) != name
  }

  ghost predicate HasNone(children: seq<Node>, name: Bytes) {
    forall i | 0 <= i < |children| :: KeyOf(children[i]) != name
  }

  lemma {:induction false} IndexIsLast(children: seq<Node>, name: GoBytes)
    ensures name !in IndexOf(children) <==> HasNone(children, name)
    ensures name in IndexOf(children) ==> IsLast(children, name, IndexOf(children)[name])
  {
    if children != [] {
      var front, last := children[..|children| - 1], children[|children| - 1];
      IndexIsLast(front, name);
      IndexUnfolds(children, front, last);
      if KeyOf(last) == name {
        assert LastAt(children, name, last, |children| - 1);
      } else {
        StaysLast(children, front, name);
      }
    }
  }

  lemma IndexUnfolds(children: seq<Node>, front: seq<Node>, last: Node)
    requires children != [] && front == children[..|children| - 1] && last == children[|children| - 1]
    ensures IndexOf(children) == IndexOf(front)[KeyOf(last) := last]
  {}

  lemma {:induction false} StaysLast(children: seq<Node>, front: seq<Node>, name: GoBytes)
    requires children != [] && front == children[..|children| - 1] && KeyOf(children[|children| - 1]) != name
    ensures HasNone(front, name) ==> HasNone(children, name)
    ensures HasNone(children, name) ==> HasNone(front, name)
    ensures forall n | IsLast(front, name, n) :: IsLast(children, name, n)
  {
    assert forall i | 0 <= i < |front| :: front[i] == children[i];
    forall n | IsLast(front, name, n) ensures IsLast(children, name, n) {
      var i :| 0 <= i < |front| && LastAt(front, name, n, i);
      assert LastAt(children, name, n, i);
    }
  }

  // A name that a field can also be found under.
  predicate Offers(children: seq<Node>, name: Bytes) {
    name != [] && exists i :: 0 <= i < |children| && KeyOf(children[i]) == name
  }

  // Main result: a field is filled from the last child of its name, or else of its number, or else of its alias, and for
  // exact matching from nothing else.
  lemma LookupPrecedence(lib: Library, policy: NameMatch, children: seq<Node>, field: Node)
    requires field.Node?
    ensures var found := Lookup(lib, policy, IndexOf(children), field);
            var number, alias := Annotation(field, Ascii("proto_number")), Annotation(field, Ascii("alias"));
            if !HasNone(children, field.key) then found.Some? && IsLast(children, field.key, found.value)
            else if Offers(children, number) then found.Some? && IsLast(children, number, found.value)
            else if Offers(children, alias) then found.Some? && IsLast(children, alias, found.value)
            else policy == ExactNames ==> found.None?
  {
    var number, alias := Annotation(field, Ascii("proto_number")), Annotation(field, Ascii("alias"));
    IndexIsLast(children, field.key);
    OfferIsFound(children, number);
    OfferIsFound(children, alias);
  }

  lemma OfferIsFound(children: seq<Node>, name: Bytes)
    ensures ByAnnotation(IndexOf(children), name).Some? <==> Offers(children, name)
    ensures Offers(children, name) ==> IsLast(children, name, ByAnnotation(IndexOf(children), name).value)
  {
    if |name| < TWO_64 {
      IndexIsLast(children, name);
    }
  }

  // Otherwise a child is taken whose name matches, and there is one if any is visited.
  lemma LookupMatches(lib: Library, policy: NameMatch, children: seq<Node>, field: Node)
    requires field.Node? && policy != ExactNames && HasNone(children, field.key)
    requires !Offers(children, Annotation(field, Ascii("proto_number"))) && !Offers(children, Annotation(field, Ascii("alias")))
    ensures var found := Lookup(lib, policy, IndexOf(children), field);
            if found.Some? then
              IsLast(children, KeyOf(found.value), found.value) && Matches(lib, policy, KeyOf(found.value), field.key)
            else
              forall k | k in lib.walk(IndexOf(children)) && !HasNone(children, k) :: !Matches(lib, policy, k, field.key)
  {
    var index := IndexOf(children);
    IndexIsLast(children, field.key);
    OfferIsFound(children, Annotation(field, Ascii("proto_number")));
    OfferIsFound(children, Annotation(field, Ascii("alias")));
    FirstMatchMatches(lib, policy, index, lib.walk(index), field.key);
    var found := Lookup(lib, policy, index, field);
    if found.Some? {
      IndexIsLast(children, KeyOf(found.value));
    }
    forall k | k in lib.walk(index) && !HasNone(children, k) ensures k in index {
      IndexIsLast(children, k);
    }
  }

  lemma {:induction false} FirstMatchMatches(lib: Library, policy: NameMatch, index: map<GoBytes, Node>, keys: seq<GoBytes>, name: GoBytes)
    requires forall k | k in index :: KeyOf(index[k]) == k
    ensures var found := FirstMatch(lib, policy, index, keys, name);
            if found.Some? then
              var k := KeyOf(found.value); k in index && index[k] == found.value && Matches(lib, policy, k, name)
            else forall k | k in keys && k in index :: !Matches(lib, policy, k, name)
  {
    if keys != [] {
      FirstMatchMatches(lib, policy, index, keys[1..], name);
    }
  }

  // ---------- matching ----------

  predicate IsSeparator(c: byte) {
    c == '_' as int || c == '-' as int
  }

  function LowerCase(c: byte): byte {
    if 'A' as int <= c <= 'Z' as int then c - 'A' as int + 'a' as int else c
  }

  function LetterOf(c: byte): Bytes {
    if IsSeparator(c) then [] else [LowerCase(c)]
  }

  // The characters of a name that count, one by one.
  function Letters(s: Bytes): Bytes {
    if s == [] then [] else Letters(s[..|s| - 1]) + LetterOf(s[|s| - 1])
  }

  lemma {:induction false} NormalizeFirst(s: Bytes)
    requires s != []
    ensures Normalize(s) == LetterOf(s[0]) + Normalize(s[1..])
  {}

  lemma {:induction false} NormalizeAppends(s: Bytes, t: Bytes)
    ensures Normalize(s + t) == Normalize(s) + Normalize(t)
  {
    if s == [] {
      assert s + t == t;
    } else {
      var tail := s[1..];
      NormalizeAppends(tail, t);
      assert (s + t)[1..] == tail + t;
      NormalizeFirst(s);
      NormalizeFirst(s + t);
      Rejoin(LetterOf(s[0]), Normalize(tail), Normalize(t));
    }
  }

  lemma {:induction false} NormalizeKeepsLetters(s: Bytes)
    ensures Normalize(s) == Letters(s)
  {
    if s != [] {
      var front, last := s[..|s| - 1], [s[|s| - 1]];
      assert s == front + last && last[1..] == [];
      NormalizeKeepsLetters(front);
      NormalizeAppends(front, last);
      NormalizeFirst(last);
      assert LetterOf(last[0]) + [] == LetterOf(last[0]);
    }
  }

  // Names match if they agree in the letters that are left without separators, in lower case, or if they are folded to
  // the same and the policy asks for that.
  lemma MatchesIff(lib: Library, policy: NameMatch, k: GoBytes, name: GoBytes)
    ensures Matches(lib, policy, k, name) <==> Letters(k) == Letters(name) || (policy == FoldNames && lib.equalFold(k, name))
  {
    NormalizeKeepsLetters(k);
    NormalizeKeepsLetters(name);
  }

  // ---------- what a schema node asks for ----------

  // Required: by its cardinality, or by the annotation "nonNull" with the text "true".
  lemma RequiredIff(s: Node)
    requires s.Node?
    ensures IsRequired(s) <==>
              s.cardinality == Required || (Ascii("nonNull") in s.annotations && s.annotations[Ascii("nonNull")] == [0x74, 0x72, 0x75, 0x65])
  {
    assert Ascii("true") == [0x74, 0x72, 0x75, 0x65];
  }

  // What missing data becomes: the default, marked as such; or else an error if the schema is required; or else a null if
  // nulls are asked for; or else nothing.
  lemma MissingBecomes(lib: Library, opt: Options, s: Node, name: GoBytes)
    requires s.Node?
    ensures var out := ApplyMissing(lib, opt, s, name);
            if !s.defaultValue.NoValue? || Annotation(s, Ascii("default")) != [] then
              && out.Done? && out.node.Node? && out.node.typ == s.typ && out.node.presence == Defaulted
              && (!s.defaultValue.NoValue? ==> out.node.value == s.defaultValue)
            else if IsRequired(s) then out.Failed?
            else if opt.emitNull then out.Done? && out.node.Node? && out.node.typ == TypeNull && out.node.presence == Null
            else out == Done(NilNode)
  {}

  // Every node of a result has the name it was asked for and the annotations, cardinality, default and element type of
  // its resolved schema.
  ghost predicate IsStamped(n: Node, s: Node, name: GoBytes) {
    && n.Node? && s.Node? && n.key == name && n.annotations == s.annotations && n.cardinality == s.cardinality
    && n.defaultValue == s.defaultValue && n.elementType == s.elementType
  }

  lemma {:induction false} ResultIsStamped(lib: Library, opt: Options, data: Node, schema: Node, name: GoBytes)
    requires schema.Node? && ProjectNode(lib, opt, data, schema, name).Done?
    requires ProjectNode(lib, opt, data, schema, name).node.Node?
    ensures IsStamped(ProjectNode(lib, opt, data, schema, name).node, Resolved(schema, opt.root), name)
  {
    var s := Resolved(schema, opt.root);
    if s.typ == TypeArray {
      assert ProjectNode(lib, opt, data, schema, name) == ProjectArray(lib, opt, data, s, name);
    } else if IsRecordType(s.typ) {
      assert ProjectNode(lib, opt, data, schema, name) == ProjectRecord(lib, opt, data, s, name);
    } else {
      assert ProjectNode(lib, opt, data, schema, name) == ProjectScalar(lib, opt, data, s, name);
    }
  }
}
