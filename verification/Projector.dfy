/** The projection as the source runs it: loops over the fields of the schema and the elements of the data. */
module Projector {
  import opened ByteStrings
  import opened KeyOrder
  import opened Projection
  import opened Uir

  function Before(nodes: seq<Node>, more: Outcomes): Outcomes {
    if more.AllFailed? then AllFailed else AllDone(nodes + more.nodes)
  }

  lemma BeforeNothing(more: Outcomes)
    ensures Before([], more) == more
  {
    if more.AllDone? {
      assert [] + more.nodes == more.nodes;
    }
  }

  lemma BeforeOne(nodes: seq<Node>, n: Node, more: Outcomes)
    ensures Before(nodes, Followed(n, more)) == Before(if n.NilNode? then nodes else nodes + [n], more)
  {
    if more.AllDone? && n.Node? {
      assert nodes + ([n] + more.nodes) == (nodes + [n]) + more.nodes;
    }
  }

  method Project(lib: Library, opt: Options, data: Node, schema: Node, name: GoBytes) returns (r: Outcome)
    ensures r == ProjectNode(lib, opt, data, schema, name)
    decreases data, 3
  {
    if schema.NilNode? {
      return Done(data);
    }
    var s := Resolved(schema, opt.root);
    if s.NilNode? {
      return Failed;
    }
    if s.typ == TypeArray {
      r := ProjectArrayNode(lib, opt, data, s, name);
    } else if IsRecordType(s.typ) {
      r := ProjectRecordNode(lib, opt, data, s, name);
    } else {
      r := ProjectScalar(lib, opt, data, s, name);
    }
  }

  method BuildIndex(children: seq<Node>) returns (index: map<GoBytes, Node>)
    ensures index == IndexOf(children)
  {
    index := map[];
    for i := 0 to |children|
      invariant index == IndexOf(children[..i])
    {
      assert children[..i + 1][..i] == children[..i];
      index := index[KeyOf(children[i]) := children[i]];
    }
    assert children[..|children|] == children;
  }

  method ProjectRecordNode(lib: Library, opt: Options, data: Node, s: Node, name: GoBytes) returns (r: Outcome)
    requires s.Node?
    ensures r == ProjectRecord(lib, opt, data, s, name)
    decreases data, 2
  {
    if IsMissing(data) {
      return ApplyMissing(lib, opt, s, name);
    }
    if NilNode in data.children {
      return Failed;
    }
    var index := BuildIndex(data.children);
    var fields, matched := ProjectAllFields(lib, opt, data, index, s.children);
    if fields.AllFailed? {
      return Failed;
    }
    var unknown := CollectUnknown(lib, opt, index, data.children, s.children, matched);
    if opt.unknown == StrictUnknown && unknown != [] {
      return Failed;
    }
    return Done(Container(TypeMap, name, fields.nodes + if opt.unknown == PreserveUnknown then unknown else [], s));
  }

  // The projected fields in schema order, and the keys of the data they were found under.
  method ProjectAllFields(lib: Library, opt: Options, data: Node, index: map<GoBytes, Node>, fields: seq<Node>)
    returns (r: Outcomes, matched: set<GoBytes>)
    requires data.Node? && forall k | k in index :: index[k] in data.children
    ensures r == ProjectFields(lib, opt, data, index, fields)
    ensures r.AllDone? ==> forall k :: k in matched <==> MatchedKey(lib, opt, index, k, fields)
    decreases data, 1
  {
    var nodes: seq<Node> := [];
    matched := {};
    var rest := fields;
    BeforeNothing(ProjectFields(lib, opt, data, index, fields));
    for i := 0 to |fields|
      invariant rest == fields[i..]
      invariant Before(nodes, ProjectFields(lib, opt, data, index, rest)) == ProjectFields(lib, opt, data, index, fields)
      invariant forall k :: k in matched <==> MatchedKey(lib, opt, index, k, fields[..i])
    {
      var child, found := ProjectOneField(lib, opt, data, index, rest[0]);
      if child.Failed? {
        return AllFailed, {};
      }
      MatchedGrows(lib, opt, index, fields, i);
      if found.Some? {
        matched := matched + {KeyOf(found.value)};
      }
      BeforeOne(nodes, child.node, ProjectFields(lib, opt, data, index, rest[1..]));
      nodes := if child.node.NilNode? then nodes else nodes + [child.node];
      rest := rest[1..];
    }
    assert fields[..|fields|] == fields && nodes + [] == nodes;
    return AllDone(nodes), matched;
  }

  lemma MatchedGrows(lib: Library, opt: Options, index: map<GoBytes, Node>, fields: seq<Node>, i: nat)
    requires i < |fields|
    ensures forall k :: MatchedKey(lib, opt, index, k, fields[..i + 1]) <==>
                          MatchedKey(lib, opt, index, k, fields[..i]) || FoundUnder(Lookup(lib, opt.nameMatch, index, fields[i]), k)
  {
    var more := fields[..i + 1];
    forall k
      ensures MatchedKey(lib, opt, index, k, more) <==>
                MatchedKey(lib, opt, index, k, fields[..i]) || FoundUnder(Lookup(lib, opt.nameMatch, index, fields[i]), k)
    {
      assert more[i] == fields[i];
      if MatchedKey(lib, opt, index, k, fields[..i]) {
        var j :| 0 <= j < i && FoundUnder(Lookup(lib, opt.nameMatch, index, fields[..i][j]), k);
        assert more[j] == fields[..i][j];
      }
      if MatchedKey(lib, opt, index, k, more) && !FoundUnder(Lookup(lib, opt.nameMatch, index, fields[i]), k) {
        var j :| 0 <= j < i + 1 && FoundUnder(Lookup(lib, opt.nameMatch, index, more[j]), k);
        assert fields[..i][j] == more[j];
      }
    }
  }

  method ProjectOneField(lib: Library, opt: Options, data: Node, index: map<GoBytes, Node>, field: Node)
    returns (r: Outcome, found: Option<Node>)
    requires data.Node? && forall k | k in index :: index[k] in data.children
    ensures r == ProjectField(lib, opt, data, index, field) && found == Lookup(lib, opt.nameMatch, index, field)
    decreases data, 0
  {
    found := Lookup(lib, opt.nameMatch, index, field);
    if field.NilNode? {
      return Failed, found;
    }
    if found.None? {
      return ApplyMissing(lib, opt, field, field.key), found;
    }
    r := Project(lib, opt, found.value, Target(field, opt.root), field.key);
    if r.Done? && r.node.Node? {
      r := Done(r.node.(key := field.key));
    }
  }

  method CollectUnknown(lib: Library, opt: Options, index: map<GoBytes, Node>, children: seq<Node>, fields: seq<Node>,
                        matched: set<GoBytes>)
    returns (unknown: seq<Node>)
    requires forall k :: k in matched <==> MatchedKey(lib, opt, index, k, fields)
    ensures unknown == UnknownFields(lib, opt, index, children, fields)
  {
    unknown := [];
    var rest := children;
    for i := 0 to |children|
      invariant rest == children[i..]
      invariant unknown + UnknownFields(lib, opt, index, rest, fields) == UnknownFields(lib, opt, index, children, fields)
    {
      UnknownStep(lib, opt, index, rest, fields, unknown);
      unknown := if KeyOf(rest[0]) in matched then unknown else unknown + [rest[0]];
      rest := rest[1..];
    }
    assert unknown + [] == unknown;
  }

  lemma UnknownStep(lib: Library, opt: Options, index: map<GoBytes, Node>, rest: seq<Node>, fields: seq<Node>, unknown: seq<Node>)
    requires rest != []
    ensures unknown + UnknownFields(lib, opt, index, rest, fields)
         == (if MatchedKey(lib, opt, index, KeyOf(rest[0]), fields) then unknown else unknown + [rest[0]])
            + UnknownFields(lib, opt, index, rest[1..], fields)
  {
    var more := UnknownFields(lib, opt, index, rest[1..], fields);
    assert unknown + ([rest[0]] + more) == (unknown + [rest[0]]) + more;
  }

  method ProjectArrayNode(lib: Library, opt: Options, data: Node, s: Node, name: GoBytes) returns (r: Outcome)
    requires s.Node?
    ensures r == ProjectArray(lib, opt, data, s, name)
    decreases data, 2
  {
    if IsMissing(data) {
      return ApplyMissing(lib, opt, s, name);
    }
    if data.typ != TypeArray {
      return Failed;
    }
    var nodes: seq<Node>, rest := [], data.children;
    BeforeNothing(ProjectElements(lib, opt, data.children, s));
    for i := 0 to |data.children|
      invariant rest == data.children[i..]
      invariant Before(nodes, ProjectElements(lib, opt, rest, s)) == ProjectElements(lib, opt, data.children, s)
    {
      assert rest[0] == data.children[i];
      var element := ProjectOneElement(lib, opt, rest[0], s);
      if element.Failed? || element.node.NilNode? {
        return Failed;
      }
      BeforeOne(nodes, element.node, ProjectElements(lib, opt, rest[1..], s));
      nodes, rest := nodes + [element.node], rest[1..];
    }
    assert nodes + [] == nodes;
    return Done(Container(TypeArray, name, nodes, s));
  }

  method ProjectOneElement(lib: Library, opt: Options, element: Node, s: Node) returns (r: Outcome)
    requires s.Node?
    ensures r == ProjectElement(lib, opt, element, s)
    decreases element, 4
  {
    if ProjectsElements(s) {
      if ElementSchema(s).NilNode? {
        return Failed;
      }
      r := Project(lib, opt, element, ElementSchema(s), ItemName(s));
      return;
    }
    if element.NilNode? {
      return Failed;
    }
    var v := Coerce(lib, opt.lossiness, element.typ, element.value, s.elementType);
    if v.None? {
      return Failed;
    }
    return Done(NewNode(s.elementType, element.key, v.value));
  }
}
