/** UIR trees as MessagePack: what is written for a tree, what a byte string stands for, and the normal
    form in which a tree comes back. */
module MsgPackNodes {
  import opened ByteStrings
  import opened Uir
  import opened Floats
  import opened MsgPackFormat

  // fmt.Sprintf("%v", …) of a map key that is not a string.
  type Render = Value -> GoBytes

  // ---------- writing ----------

  predicate IsIntegerType(t: UirType) {
    t in {TypeInt32, TypeInt64, TypeUInt32, TypeUInt64, TypeSInt32, TypeSInt64,
          TypeFixed32, TypeFixed64, TypeSFixed32, TypeSFixed64}
  }

  // A value of the wrong dynamic type counts as the zero value.
  function StringOf(v: Value): GoBytes {
    if v.Str? then v.s else []
  }

  function BytesOf(v: Value): GoBytes {
    if v.Blob? then v.s else []
  }

  function IntegerOf(v: Value): int64 {
    match v case Int64(i) => i case Int32(i) => i case Int(i) => i case _ => 0
  }

  function IntegerHead(v: Value): Bytes {
    match v case Uint64(u) => UintHead(u) case Uint32(u) => UintHead(u) case _ => IntHead(IntegerOf(v))
  }

  function ScalarBytes(t: UirType, v: Value): Bytes {
    if t == TypeString then StrHead(|StringOf(v)|) + StringOf(v)
    else if t == TypeBytes then BinHead(|BytesOf(v)|) + BytesOf(v)
    else if IsIntegerType(t) then IntegerHead(v)
    else if t == TypeFloat64 then [0xCB] + BigEndian(8, if v.Float64? then v.bits else 0)
    else if t == TypeFloat32 then [0xCA] + BigEndian(4, if v.Float32? then v.bits32 else 0)
    else if t == TypeBoolean then [if v == Bool(true) then 0xC3 else 0xC2]
    else [0xC0]
  }

  predicate IsScalarType(t: UirType) {
    t in {TypeNull, TypeString, TypeBytes, TypeFloat64, TypeFloat32, TypeBoolean} || IsIntegerType(t)
  }

  // The trees that have a MessagePack form. A nil child of a map has no key to write.
  predicate Packable(n: Node)
    decreases n, 0
  {
    n.NilNode? || IsScalarType(n.typ)
    || (n.typ == TypeArray && AllPackable(n.children))
    || (n.typ == TypeMap && NilNode !in n.children && AllPackable(n.children))
  }

  predicate AllPackable(nodes: seq<Node>)
    decreases nodes, 1
  {
    forall i | 0 <= i < |nodes| :: Packable(nodes[i])
  }

  function Pack(n: Node): Bytes
    decreases n, 0
  {
    if n.NilNode? then [0xC0]
    else if n.typ == TypeArray then ArrayHead(|n.children|) + PackElements(n.children)
    else if n.typ == TypeMap then MapHead(|n.children|) + PackFields(n.children)
    else ScalarBytes(n.typ, n.value)
  }

  function PackElements(nodes: seq<Node>): Bytes
    decreases nodes, 1
  {
    if nodes == [] then [] else Pack(nodes[0]) + PackElements(nodes[1..])
  }

  function PackKey(n: Node): Bytes {
    if n.NilNode? then [] else StrHead(|n.key|) + n.key
  }

  function PackFields(nodes: seq<Node>): Bytes
    decreases nodes, 1
  {
    if nodes == [] then [] else PackKey(nodes[0]) + Pack(nodes[0]) + PackFields(nodes[1..])
  }

  // ---------- reading ----------

  datatype ParseResult = NotParsed | Parsed(node: Node, rest: Bytes)
  datatype ListResult = NoList | GotList(nodes: seq<Node>, rest: Bytes)

  function ScalarNode(t: Token, key: GoBytes): Node {
    match t
    case BoolToken(b) => NewNode(TypeBoolean, key, Bool(b))
    case IntToken(i) => NewNode(TypeInt64, key, Int64(i))
    case UintToken(u) => NewNode(TypeUInt64, key, Uint64(u))
    case FloatToken(bits) => NewNode(TypeFloat64, key, Float64(bits))
    case _ => NewNode(TypeNull, key, NoValue)
  }

  function ArrayNode(key: GoBytes, children: seq<Node>): Node {
    var empty := NewNode(TypeArray, key, NoValue);
    empty.(children := children)
  }

  function MapNode(key: GoBytes, children: seq<Node>): Node {
    var empty := NewNode(TypeMap, key, NoValue);
    empty.(children := children)
  }

  function ParseValue(render: Render, key: GoBytes, s: Bytes): (r: ParseResult)
    ensures r.Parsed? ==> |r.rest| < |s| && r.node.Node?
    decreases |s|, 0
  {
    var t := ReadToken(s);
    if t.NoToken? then NotParsed
    else
      match t.token
      case StrToken(n) =>
        if |t.rest| < n then NotParsed else Parsed(NewNode(TypeString, key, Str(t.rest[..n])), t.rest[n..])
      case BinToken(n) =>
        if |t.rest| < n then NotParsed else Parsed(NewNode(TypeBytes, key, Blob(t.rest[..n])), t.rest[n..])
      case ArrayToken(n) =>
        var list := ParseElements(render, n, t.rest);
        if list.NoList? then NotParsed else Parsed(ArrayNode(key, list.nodes), list.rest)
      case MapToken(n) =>
        var list := ParseFields(render, n, t.rest);
        if list.NoList? then NotParsed else Parsed(MapNode(key, list.nodes), list.rest)
      case token => Parsed(ScalarNode(token, key), t.rest)
  }

  function ParseElements(render: Render, count: nat, s: Bytes): (r: ListResult)
    ensures r.GotList? ==> |r.rest| <= |s| && |r.nodes| == count
    decreases |s|, 1, count
  {
    if count == 0 then GotList([], s)
    else
      var first := ParseValue(render, [], s);
      if first.NotParsed? then NoList else InFront([first.node], ParseElements(render, count - 1, first.rest))
  }

  function InFront(nodes: seq<Node>, r: ListResult): ListResult {
    if r.NoList? then NoList else GotList(nodes + r.nodes, r.rest)
  }

  // The key of a field, taken from the node of its key.
  function FieldKey(render: Render, k: Node): GoBytes {
    if k.Node? && k.typ == TypeString && k.value.Str? then k.value.s
    else if k.Node? then render(k.value)
    else []
  }

  // A key and its value.
  function ParseField(render: Render, s: Bytes): (r: ParseResult)
    ensures r.Parsed? ==> |r.rest| < |s| && r.node.Node?
    decreases |s|, 1
  {
    var k := ParseValue(render, [], s);
    if k.NotParsed? then NotParsed else ParseValue(render, FieldKey(render, k.node), k.rest)
  }

  function ParseFields(render: Render, count: nat, s: Bytes): (r: ListResult)
    ensures r.GotList? ==> |r.rest| <= |s| && |r.nodes| == count
    decreases |s|, 2, count
  {
    if count == 0 then GotList([], s)
    else
      var first := ParseField(render, s);
      if first.NotParsed? then NoList else InFront([first.node], ParseFields(render, count - 1, first.rest))
  }

  // ParseMessagePack: nothing may be left over.
  function ParseAll(render: Render, s: Bytes): Option<Node> {
    var r := ParseValue(render, [], s);
    if r.Parsed? && r.rest == [] then Some(r.node) else None
  }

  // ---------- the normal form ----------

  function ScalarNormal(t: UirType, v: Value, key: GoBytes): Node {
    if t == TypeString then NewNode(TypeString, key, Str(StringOf(v)))
    else if t == TypeBytes then NewNode(TypeBytes, key, Blob(BytesOf(v)))
    else if IsIntegerType(t) then IntegerNormal(v, key)
    else if t == TypeFloat64 then NewNode(TypeFloat64, key, Float64(if v.Float64? then v.bits else 0))
    else if t == TypeFloat32 then NewNode(TypeFloat64, key, Float64(SingleToDouble(if v.Float32? then v.bits32 else 0)))
    else if t == TypeBoolean then NewNode(TypeBoolean, key, Bool(v == Bool(true)))
    else NewNode(TypeNull, key, NoValue)
  }

  // Small unsigned numbers come back signed.
  function IntegerNormal(v: Value, key: GoBytes): Node {
    if v.Uint64? && v.u > 127 then NewNode(TypeUInt64, key, v)
    else if v.Uint64? then NewNode(TypeInt64, key, Int64(v.u))
    else if v.Uint32? && v.u32 > 127 then NewNode(TypeUInt64, key, Uint64(v.u32))
    else if v.Uint32? then NewNode(TypeInt64, key, Int64(v.u32))
    else NewNode(TypeInt64, key, Int64(IntegerOf(v)))
  }

  // Elements lose their keys, fields keep them, annotations and the like are gone.
  function Normal(n: Node, key: GoBytes): Node
    decreases n, 0
  {
    if n.NilNode? then NewNode(TypeNull, key, NoValue)
    else if n.typ == TypeArray then ArrayNode(key, NormalElements(n.children))
    else if n.typ == TypeMap then MapNode(key, NormalFields(n.children))
    else ScalarNormal(n.typ, n.value, key)
  }

  function NormalElements(nodes: seq<Node>): (r: seq<Node>)
    ensures |r| == |nodes|
    decreases nodes, 1
  {
    if nodes == [] then [] else [Normal(nodes[0], [])] + NormalElements(nodes[1..])
  }

  function NormalFields(nodes: seq<Node>): (r: seq<Node>)
    ensures |r| == |nodes|
    decreases nodes, 1
  {
    if nodes == [] then []
    else [Normal(nodes[0], if nodes[0].Node? then nodes[0].key else [])] + NormalFields(nodes[1..])
  }

  // Every length that is written fits the 32 bits the format has for it.
  predicate LengthsFit(n: Node)
    decreases n, 0
  {
    n.NilNode? ||
    if n.typ == TypeString then |StringOf(n.value)| < TWO_32
    else if n.typ == TypeBytes then |BytesOf(n.value)| < TWO_32
    else if n.typ == TypeArray then |n.children| < TWO_32 && AllFit(n.children)
    else n.typ == TypeMap ==> |n.children| < TWO_32 && AllFit(n.children) && KeysFit(n.children)
  }

  predicate AllFit(nodes: seq<Node>)
    decreases nodes, 1
  {
    forall i | 0 <= i < |nodes| :: LengthsFit(nodes[i])
  }

  predicate KeysFit(nodes: seq<Node>) {
    forall i | 0 <= i < |nodes| :: nodes[i].Node? ==> |nodes[i].key| < TWO_32
  }

  // ---------- round trip ----------

  lemma ScalarReads(render: Render, t: UirType, v: Value, key: GoBytes, rest: Bytes)
    requires IsScalarType(t) && (t == TypeString ==> |StringOf(v)| < TWO_32) && (t == TypeBytes ==> |BytesOf(v)| < TWO_32)
    ensures ParseValue(render, key, ScalarBytes(t, v) + rest) == Parsed(ScalarNormal(t, v, key), rest)
  {
    if t == TypeString {
      StringReads(render, StringOf(v), key, rest);
    } else if t == TypeBytes {
      BinaryReads(render, BytesOf(v), key, rest);
    } else if IsIntegerType(t) {
      IntegerReads(render, v, key, rest);
    } else {
      SimpleReads(render, t, v, key, rest);
    }
  }

  // The token of a boolean, a float or null.
  function SimpleToken(t: UirType, v: Value): Token {
    if t == TypeFloat64 then FloatToken(if v.Float64? then v.bits else 0)
    else if t == TypeFloat32 then FloatToken(SingleToDouble(if v.Float32? then v.bits32 else 0))
    else if t == TypeBoolean then BoolToken(v == Bool(true))
    else NilToken
  }

  lemma SimpleReads(render: Render, t: UirType, v: Value, key: GoBytes, rest: Bytes)
    requires t in {TypeFloat64, TypeFloat32, TypeBoolean, TypeNull}
    ensures ParseValue(render, key, ScalarBytes(t, v) + rest) == Parsed(ScalarNormal(t, v, key), rest)
  {
    SimpleTokenReads(t, v, rest);
    TokenParses(render, key, ScalarBytes(t, v) + rest, SimpleToken(t, v), rest);
    SimpleNormal(t, v, key);
  }

  lemma SimpleNormal(t: UirType, v: Value, key: GoBytes)
    requires t in {TypeFloat64, TypeFloat32, TypeBoolean, TypeNull}
    ensures ScalarNode(SimpleToken(t, v), key) == ScalarNormal(t, v, key)
  {}

  lemma SimpleTokenReads(t: UirType, v: Value, rest: Bytes)
    requires t in {TypeFloat64, TypeFloat32, TypeBoolean, TypeNull}
    ensures ReadToken(ScalarBytes(t, v) + rest) == GotToken(SimpleToken(t, v), rest)
  {
    Pow256Widths();
    if t == TypeFloat64 {
      ArgumentReads(0xCB, if v.Float64? then v.bits else 0, rest);
    } else if t == TypeFloat32 {
      ArgumentReads(0xCA, if v.Float32? then v.bits32 else 0, rest);
    } else {
      InlineReads(ScalarBytes(t, v)[0], rest);
    }
  }

  lemma TokenParses(render: Render, key: GoBytes, s: Bytes, t: Token, rest: Bytes)
    requires ReadToken(s) == GotToken(t, rest) && !t.StrToken? && !t.BinToken? && !t.ArrayToken? && !t.MapToken?
    ensures ParseValue(render, key, s) == Parsed(ScalarNode(t, key), rest)
  {}

  lemma StringReads(render: Render, s: GoBytes, key: GoBytes, rest: Bytes)
    requires |s| < TWO_32
    ensures ParseValue(render, key, (StrHead(|s|) + s) + rest) == Parsed(NewNode(TypeString, key, Str(s)), rest)
  {
    StrHeadReads(|s|, s + rest);
    Rejoin(StrHead(|s|), s, rest);
    assert (s + rest)[..|s|] == s && (s + rest)[|s|..] == rest;
  }

  lemma BinaryReads(render: Render, s: GoBytes, key: GoBytes, rest: Bytes)
    requires |s| < TWO_32
    ensures ParseValue(render, key, (BinHead(|s|) + s) + rest) == Parsed(NewNode(TypeBytes, key, Blob(s)), rest)
  {
    BinHeadReads(|s|, s + rest);
    Rejoin(BinHead(|s|), s, rest);
    assert (s + rest)[..|s|] == s && (s + rest)[|s|..] == rest;
  }

  function IntegerToken(v: Value): Token {
    match v
    case Uint64(u) => if u <= 127 then IntToken(u) else UintToken(u)
    case Uint32(u) => if u <= 127 then IntToken(u) else UintToken(u)
    case _ => IntToken(IntegerOf(v))
  }

  lemma IntegerTokenNormal(v: Value, key: GoBytes)
    ensures ScalarNode(IntegerToken(v), key) == IntegerNormal(v, key)
  {}

  lemma IntegerReads(render: Render, v: Value, key: GoBytes, rest: Bytes)
    ensures ParseValue(render, key, IntegerHead(v) + rest) == Parsed(IntegerNormal(v, key), rest)
  {
    match v {
      case Uint64(u) => UintHeadReads(u, rest);
      case Uint32(u) => UintHeadReads(u, rest);
      case _ => IntHeadReads(IntegerOf(v), rest);
    }
    IntegerTokenNormal(v, key);
    TokenParses(render, key, IntegerHead(v) + rest, IntegerToken(v), rest);
  }

  // Main result: from the bytes of a tree, whatever follows them, the reader returns exactly the tree's
  // normal form and stops behind them.
  lemma {:induction false} PackedReads(render: Render, n: Node, key: GoBytes, rest: Bytes)
    requires Packable(n) && LengthsFit(n)
    ensures ParseValue(render, key, Pack(n) + rest) == Parsed(Normal(n, key), rest)
    decreases n, 0
  {
    if n.NilNode? {
      TokenParses(render, key, Pack(n) + rest, NilToken, rest);
    } else if n.typ == TypeArray {
      ElementsRead(render, n.children, rest);
      ArrayReads(render, key, n.children, rest);
    } else if n.typ == TypeMap {
      FieldsRead(render, n.children, rest);
      MapReads(render, key, n.children, rest);
    } else {
      ScalarReads(render, n.typ, n.value, key, rest);
    }
  }

  lemma ArrayReads(render: Render, key: GoBytes, nodes: seq<Node>, rest: Bytes)
    requires |nodes| < TWO_32
    requires ParseElements(render, |nodes|, PackElements(nodes) + rest) == GotList(NormalElements(nodes), rest)
    ensures ParseValue(render, key, (ArrayHead(|nodes|) + PackElements(nodes)) + rest)
         == Parsed(ArrayNode(key, NormalElements(nodes)), rest)
  {
    var body := PackElements(nodes) + rest;
    ArrayHeadReads(|nodes|, body);
    Rejoin(ArrayHead(|nodes|), PackElements(nodes), rest);
    ListParses(render, key, ArrayHead(|nodes|) + body, |nodes|, body);
  }

  lemma ListParses(render: Render, key: GoBytes, s: Bytes, n: uint32, rest: Bytes)
    requires ReadToken(s) == GotToken(ArrayToken(n), rest)
    ensures var list := ParseElements(render, n, rest);
            ParseValue(render, key, s) == if list.NoList? then NotParsed else Parsed(ArrayNode(key, list.nodes), list.rest)
  {}

  lemma MapParses(render: Render, key: GoBytes, s: Bytes, n: uint32, rest: Bytes)
    requires ReadToken(s) == GotToken(MapToken(n), rest)
    ensures var list := ParseFields(render, n, rest);
            ParseValue(render, key, s) == if list.NoList? then NotParsed else Parsed(MapNode(key, list.nodes), list.rest)
  {}

  lemma MapReads(render: Render, key: GoBytes, nodes: seq<Node>, rest: Bytes)
    requires |nodes| < TWO_32
    requires ParseFields(render, |nodes|, PackFields(nodes) + rest) == GotList(NormalFields(nodes), rest)
    ensures ParseValue(render, key, (MapHead(|nodes|) + PackFields(nodes)) + rest)
         == Parsed(MapNode(key, NormalFields(nodes)), rest)
  {
    var body := PackFields(nodes) + rest;
    MapHeadReads(|nodes|, body);
    Rejoin(MapHead(|nodes|), PackFields(nodes), rest);
    MapParses(render, key, MapHead(|nodes|) + body, |nodes|, body);
  }

  lemma {:induction false} ElementsRead(render: Render, nodes: seq<Node>, rest: Bytes)
    requires AllPackable(nodes) && AllFit(nodes)
    ensures ParseElements(render, |nodes|, PackElements(nodes) + rest) == GotList(NormalElements(nodes), rest)
    decreases nodes, 1
  {
    if nodes == [] {
      assert [] + rest == rest;
    } else {
      var behind := PackElements(nodes[1..]) + rest;
      PackedReads(render, nodes[0], [], behind);
      ElementsRead(render, nodes[1..], rest);
      Rejoin(Pack(nodes[0]), PackElements(nodes[1..]), rest);
    }
  }

  lemma {:induction false} FieldsRead(render: Render, nodes: seq<Node>, rest: Bytes)
    requires AllPackable(nodes) && AllFit(nodes) && KeysFit(nodes) && NilNode !in nodes
    ensures ParseFields(render, |nodes|, PackFields(nodes) + rest) == GotList(NormalFields(nodes), rest)
    decreases nodes, 1
  {
    if nodes == [] {
      assert [] + rest == rest;
    } else {
      var behind := PackFields(nodes[1..]) + rest;
      FieldReads(render, nodes[0], behind);
      FieldsRead(render, nodes[1..], rest);
      FieldReadInFront(render, nodes, nodes[0], nodes[1..], rest);
    }
  }

  lemma FieldReadInFront(render: Render, nodes: seq<Node>, first: Node, more: seq<Node>, rest: Bytes)
    requires nodes != [] && first == nodes[0] && more == nodes[1..] && first.Node?
    requires ParseField(render, (PackKey(first) + Pack(first)) + (PackFields(more) + rest))
          == Parsed(Normal(first, first.key), PackFields(more) + rest)
    requires ParseFields(render, |more|, PackFields(more) + rest) == GotList(NormalFields(more), rest)
    ensures ParseFields(render, |nodes|, PackFields(nodes) + rest) == GotList(NormalFields(nodes), rest)
  {
    Rejoin(PackKey(first) + Pack(first), PackFields(more), rest);
  }

  lemma {:induction false} FieldReads(render: Render, n: Node, behind: Bytes)
    requires n.Node? && Packable(n) && LengthsFit(n) && |n.key| < TWO_32
    ensures ParseField(render, (PackKey(n) + Pack(n)) + behind) == Parsed(Normal(n, n.key), behind)
    decreases n, 1
  {
    StringReads(render, n.key, [], Pack(n) + behind);
    Rejoin(PackKey(n), Pack(n), behind);
    PackedReads(render, n, n.key, behind);
  }

  // The whole document, as ParseMessagePack reads it.
  lemma PackThenParse(render: Render, n: Node)
    requires Packable(n) && LengthsFit(n)
    ensures ParseAll(render, Pack(n)) == Some(Normal(n, []))
  {
    PackedReads(render, n, [], []);
    assert Pack(n) + [] == Pack(n);
  }
}
