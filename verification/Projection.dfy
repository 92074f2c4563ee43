/** Projection of a data tree onto a schema whose named types may refer to each other. */
module Projection {
  import opened ByteStrings
  import opened Floats
  import opened KeyOrder
  import opened Uir

  datatype UnknownPolicy = IgnoreUnknown | StrictUnknown | PreserveUnknown
  datatype Lossiness = StrictLoss | SafeLoss | PermissiveLoss
  datatype NameMatch = ExactNames | FoldNames | SnakeCamelNames

  // The root holds the named types; NilNode if there is none.
  datatype Options = Options(unknown: UnknownPolicy, emitNull: bool, lossiness: Lossiness, nameMatch: NameMatch, root: Node)

  // What the source takes from Go's library: text and byte conversions, floating point, and the order in
  // which a map is walked.
  datatype Library = Library(
    sprint: Value -> GoBytes,
    parseInt: GoBytes -> Option<int64>,
    parseBool: GoBytes -> Option<bool>,
    floatToInt: (uint64, Lossiness) -> Option<int64>,
    floatToUint: (uint64, Lossiness) -> Option<uint64>,
    toDouble: (Value, Lossiness) -> Option<uint64>,
    narrow: uint64 -> uint32,
    textToBytes: GoBytes -> Option<GoBytes>,
    bytesToText: GoBytes -> Option<GoBytes>,
    equalFold: (GoBytes, GoBytes) -> bool,
    walk: map<GoBytes, Node> -> seq<GoBytes>)

  // Failed stands for an error and for the nil dereferences of the source. A field that is left out
  // projects to NilNode.
  datatype Outcome = Failed | Done(node: Node)
  datatype Outcomes = AllFailed | AllDone(nodes: seq<Node>)

  // ---------- values ----------

  function ZeroFor(t: UirType): Value {
    if t == TypeBytes then Blob([])
    else if t in {TypeString, TypeEnum, TypeTimestamp, TypeDate, TypeTime, TypeDuration, TypeDecimal} then Str([])
    else if t in {TypeInt32, TypeSInt32, TypeSFixed32} then Int32(0)
    else if t in {TypeInt64, TypeSInt64, TypeSFixed64} then Int64(0)
    else if t in {TypeUInt32, TypeFixed32} then Uint32(0)
    else if t in {TypeUInt64, TypeFixed64} then Uint64(0)
    else if t == TypeFloat32 then Float32(0)
    else if t == TypeFloat64 then Float64(0)
    else if t == TypeBoolean then Bool(false)
    else NoValue
  }

  function ToInt64(lib: Library, v: Value, l: Lossiness): Option<int64> {
    match v
    case Int64(i) => Some(i)
    case Int32(i) => Some(i)
    case Int(i) => Some(i)
    case Uint32(u) => Some(u)
    case Uint64(u) => if u <= MAX_INT64 then Some(u) else if l == PermissiveLoss then Some(u - TWO_64) else None
    case Float32(bits) => lib.floatToInt(SingleToDouble(bits), l)
    case Float64(bits) => lib.floatToInt(bits, l)
    case Str(s) => lib.parseInt(s)
    case Bool(b) => Some(if b then 1 else 0)
    case _ => None
  }

  function Unsigned(i: int64, l: Lossiness): Option<uint64> {
    if i >= 0 then Some(i) else if l == PermissiveLoss then Some(i + TWO_64) else None
  }

  function ToUint64(lib: Library, v: Value, l: Lossiness): Option<uint64> {
    match v
    case Uint64(u) => Some(u)
    case Uint32(u) => Some(u)
    case Float64(bits) => lib.floatToUint(bits, l)
    case _ =>
      var i := ToInt64(lib, v, l);
      if i.None? then None else Unsigned(i.value, l)
  }

  function ToFloat64(lib: Library, v: Value, l: Lossiness): Option<uint64> {
    match v
    case Float64(bits) => Some(bits)
    case Float32(bits) => Some(SingleToDouble(bits))
    case _ => lib.toDouble(v, l)
  }

  // Infinities and NaNs: the exponent is all ones.
  predicate IsSpecial(bits: uint64) {
    (bits / 0x10_0000_0000_0000) % 2048 == 2047
  }

  function Low32(i: int): int32 {
    var low := i % 0x1_0000_0000;
    if low < 0x8000_0000 then low else low - 0x1_0000_0000
  }

  function CoerceInteger(lib: Library, v: Value, t: UirType, l: Lossiness): Option<Value> {
    if t in {TypeInt32, TypeSInt32, TypeSFixed32} then
      var i := ToInt64(lib, v, l);
      if i.None? || (!(-0x8000_0000 <= i.value <= 0x7FFF_FFFF) && l != PermissiveLoss) then None
      else Some(Int32(Low32(i.value)))
    else if t in {TypeInt64, TypeSInt64, TypeSFixed64} then
      var i := ToInt64(lib, v, l);
      if i.None? then None else Some(Int64(i.value))
    else if t in {TypeUInt32, TypeFixed32} then
      var u := ToUint64(lib, v, l);
      if u.None? || (u.value > 0xFFFF_FFFF && l != PermissiveLoss) then None else Some(Uint32(u.value % 0x1_0000_0000))
    else
      var u := ToUint64(lib, v, l);
      if u.None? then None else Some(Uint64(u.value))
  }

  predicate IsInteger(t: UirType) {
    t in {TypeInt32, TypeSInt32, TypeSFixed32, TypeInt64, TypeSInt64, TypeSFixed64,
          TypeUInt32, TypeFixed32, TypeUInt64, TypeFixed64}
  }

  function CoerceFloat(lib: Library, v: Value, t: UirType, l: Lossiness): Option<Value> {
    var f := ToFloat64(lib, v, l);
    if f.None? then None
    else if t == TypeFloat64 then Some(Float64(f.value))
    else
      var narrow := lib.narrow(f.value);
      if l == StrictLoss && SingleToDouble(narrow) != f.value && !IsSpecial(f.value) then None else Some(Float32(narrow))
  }

  function CoerceBool(lib: Library, v: Value): Option<Value> {
    match v
    case Int64(i) => Some(Bool(i != 0))
    case Str(s) => var b := lib.parseBool(s); if b.None? then None else Some(Bool(b.value))
    case _ => Some(v)
  }

  function CoerceText(lib: Library, v: Value): Value {
    if v.Str? then v else Str(lib.sprint(v))
  }

  function Coerce(lib: Library, l: Lossiness, typ: UirType, v: Value, t: UirType): Option<Value> {
    if v.NoValue? || typ == TypeNull then Some(ZeroFor(t))
    else if t == TypeBytes then
      if v.Blob? then Some(v)
      else if v.Str? then var b := lib.textToBytes(v.s); if b.None? then None else Some(Blob(b.value))
      else None
    else if t == TypeString && typ == TypeBytes then
      if v.Blob? then var s := lib.bytesToText(v.s); if s.None? then None else Some(Str(s.value))
      else Some(Str(lib.sprint(v)))
    else if IsInteger(t) then CoerceInteger(lib, v, t, l)
    else if t == TypeFloat32 || t == TypeFloat64 then CoerceFloat(lib, v, t, l)
    else if t in {TypeString, TypeEnum, TypeTimestamp, TypeDate, TypeTime, TypeDuration, TypeDecimal} then Some(CoerceText(lib, v))
    else if t == TypeBoolean then CoerceBool(lib, v)
    else if t == TypeNull then Some(NoValue)
    else Some(v)
  }

  // ---------- schema nodes ----------

  predicate IsNamed(t: UirType) {
    t in {TypeMap, TypeEnum, TypeUnion, TypeInterface, TypeDefinition}
  }

  predicate IsRecordType(t: UirType) {
    t in {TypeMap, TypeUnion, TypeInterface, TypeDefinition}
  }

  function FindNamedType(n: Node, name: Bytes): Option<Node>
    decreases n, 0
  {
    if n.NilNode? then None
    else if n.key == name && IsNamed(n.typ) then Some(n)
    else FindNamedAmong(n.children, name)
  }

  function FindNamedAmong(nodes: seq<Node>, name: Bytes): Option<Node>
    decreases nodes, 1
  {
    if nodes == [] then None
    else
      var found := FindNamedType(nodes[0], name);
      if found.Some? then found else FindNamedAmong(nodes[1..], name)
  }

  function GqlType(schema: Node): Bytes {
    Annotation(schema, Ascii("gql_type"))
  }

  function ResolveNamed(name: Bytes, root: Node): Option<Node> {
    if name == [] then None else FindNamedType(root, name)
  }

  // A reference stands for the type it names, by annotation or else by its key.
  function Resolved(schema: Node, root: Node): Node {
    if schema.Node? && schema.typ == TypeRef then
      var found := ResolveNamed(if GqlType(schema) != [] then GqlType(schema) else schema.key, root);
      if found.Some? then found.value else schema
    else schema
  }

  // The schema of a field that was found: the named type with the field's key, cardinality and annotations.
  function Target(field: Node, root: Node): Node {
    if field.Node? && (field.typ == TypeRef || (field.typ == TypeMap && GqlType(field) != [] && field.children == [])) then
      var found := ResolveNamed(GqlType(field), root);
      if found.Some? && found.value.Node? then
        found.value.(key := field.key, cardinality := field.cardinality, annotations := found.value.annotations + field.annotations)
      else field
    else field
  }

  predicate IsRequired(schema: Node) {
    schema.Node? && (schema.cardinality == Required || Annotation(schema, Ascii("nonNull")) == Ascii("true"))
  }

  predicate HasDefault(schema: Node) {
    schema.Node? && (!schema.defaultValue.NoValue? || Annotation(schema, Ascii("default")) != [])
  }

  // A fresh node with the annotations and the like of its schema.
  function Stamped(t: UirType, key: GoBytes, v: Value, presence: Presence, schema: Node): (n: Node)
    requires schema.Node?
    ensures n.Node? && n.typ == t && n.key == key && n.value == v && n.children == [] && n.presence == presence
  {
    Node(t, key, v, [], schema.elementType, presence, schema.cardinality, schema.defaultValue, schema.annotations)
  }

  // An array or a record with its children.
  function Container(t: UirType, key: GoBytes, children: seq<Node>, schema: Node): (n: Node)
    requires schema.Node?
    ensures n.Node? && n.typ == t && n.key == key && n.children == children && n.presence == Present
  {
    Node(t, key, NoValue, children, schema.elementType, Present, schema.cardinality, schema.defaultValue, schema.annotations)
  }

  function DefaultOf(lib: Library, schema: Node): Value
    requires schema.Node?
  {
    if !schema.defaultValue.NoValue? then schema.defaultValue
    else
      var text := Annotation(schema, Ascii("default"));
      var s: GoBytes := if |text| < TWO_64 then text else [];
      var v := Coerce(lib, SafeLoss, TypeString, Str(s), schema.typ);
      if v.Some? then v.value else Str(s)
  }

  function ApplyMissing(lib: Library, opt: Options, schema: Node, key: GoBytes): Outcome {
    if schema.NilNode? then Failed
    else if HasDefault(schema) then Done(Stamped(schema.typ, key, DefaultOf(lib, schema), Defaulted, schema))
    else if IsRequired(schema) then Failed
    else if opt.emitNull then Done(Stamped(TypeNull, key, NoValue, Null, schema))
    else Done(NilNode)
  }

  // ---------- finding the data of a field ----------

  // By key; the last of several children with one key wins.
  function IndexOf(children: seq<Node>): (m: map<GoBytes, Node>)
    ensures forall k | k in m :: m[k] in children && KeyOf(m[k]) == k
  {
    if children == [] then map[]
    else
      var last := children[|children| - 1];
      IndexOf(children[..|children| - 1])[KeyOf(last) := last]
  }

  // Lower case, without underscores and hyphens.
  function Normalize(s: Bytes): Bytes {
    if s == [] then []
    else if s[0] == 0x5F || s[0] == 0x2D then Normalize(s[1..])
    else [if 0x41 <= s[0] <= 0x5A then s[0] + 32 else s[0]] + Normalize(s[1..])
  }

  predicate Matches(lib: Library, policy: NameMatch, k: GoBytes, name: GoBytes) {
    Normalize(k) == Normalize(name) || (policy == FoldNames && lib.equalFold(k, name))
  }

  function FirstMatch(lib: Library, policy: NameMatch, index: map<GoBytes, Node>, keys: seq<GoBytes>, name: GoBytes): (r: Option<Node>)
    ensures r.Some? ==> exists k :: k in index && index[k] == r.value
  {
    if keys == [] then None
    else if keys[0] in index && Matches(lib, policy, keys[0], name) then Some(index[keys[0]])
    else FirstMatch(lib, policy, index, keys[1..], name)
  }

  function ByAnnotation(index: map<GoBytes, Node>, name: Bytes): Option<Node> {
    if name != [] && |name| < TWO_64 && name in index then Some(index[name]) else None
  }

  function Lookup(lib: Library, policy: NameMatch, index: map<GoBytes, Node>, field: Node): (r: Option<Node>)
    ensures r.Some? ==> exists k :: k in index && index[k] == r.value
  {
    if field.NilNode? then None
    else if field.key in index then Some(index[field.key])
    else
      var byNumber := ByAnnotation(index, Annotation(field, Ascii("proto_number")));
      var byAlias := ByAnnotation(index, Annotation(field, Ascii("alias")));
      if byNumber.Some? then byNumber
      else if byAlias.Some? then byAlias
      else if policy == ExactNames then None
      else FirstMatch(lib, policy, index, lib.walk(index), field.key)
  }

  // ---------- projection ----------

  // Recursion follows the data only, so that it ends however the named types refer to each other.
  function ProjectNode(lib: Library, opt: Options, data: Node, schema: Node, name: GoBytes): Outcome
    decreases data, 3
  {
    if schema.NilNode? then Done(data)
    else
      var s := Resolved(schema, opt.root);
      if s.NilNode? then Failed
      else if s.typ == TypeArray then ProjectArray(lib, opt, data, s, name)
      else if IsRecordType(s.typ) then ProjectRecord(lib, opt, data, s, name)
      else ProjectScalar(lib, opt, data, s, name)
  }

  predicate IsMissing(data: Node) {
    data.NilNode? || data.presence == Missing
  }

  function ProjectScalar(lib: Library, opt: Options, data: Node, s: Node, name: GoBytes): Outcome
    requires s.Node?
  {
    if IsMissing(data) then ApplyMissing(lib, opt, s, name)
    else if data.typ == TypeNull || data.presence == Null then
      if IsRequired(s) then Failed else Done(Stamped(TypeNull, name, NoValue, Null, s))
    else
      var v := Coerce(lib, opt.lossiness, data.typ, data.value, s.typ);
      if v.None? then Failed else Done(Stamped(s.typ, name, v.value, Present, s))
  }

  function Followed(node: Node, more: Outcomes): Outcomes {
    if more.AllFailed? then AllFailed else if node.NilNode? then more else AllDone([node] + more.nodes)
  }

  function ProjectRecord(lib: Library, opt: Options, data: Node, s: Node, name: GoBytes): Outcome
    requires s.Node?
    decreases data, 2
  {
    if IsMissing(data) then ApplyMissing(lib, opt, s, name)
    else if NilNode in data.children then Failed
    else
      var fields := ProjectFields(lib, opt, data, IndexOf(data.children), s.children);
      if fields.AllFailed? then Failed
      else
        var unknown := UnknownFields(lib, opt, IndexOf(data.children), data.children, s.children);
        if opt.unknown == StrictUnknown && unknown != [] then Failed
        else
          var kept := if opt.unknown == PreserveUnknown then unknown else [];
          Done(Container(TypeMap, name, fields.nodes + kept, s))
  }

  function ProjectFields(lib: Library, opt: Options, data: Node, index: map<GoBytes, Node>, fields: seq<Node>): Outcomes
    requires data.Node? && forall k | k in index :: index[k] in data.children
    decreases data, 1, |fields|
  {
    if fields == [] then AllDone([])
    else
      var first := ProjectField(lib, opt, data, index, fields[0]);
      if first.Failed? then AllFailed else Followed(first.node, ProjectFields(lib, opt, data, index, fields[1..]))
  }

  function ProjectField(lib: Library, opt: Options, data: Node, index: map<GoBytes, Node>, field: Node): Outcome
    requires data.Node? && forall k | k in index :: index[k] in data.children
    decreases data, 0
  {
    if field.NilNode? then Failed
    else
      var found := Lookup(lib, opt.nameMatch, index, field);
      if found.None? then ApplyMissing(lib, opt, field, field.key)
      else
        var child := ProjectNode(lib, opt, found.value, Target(field, opt.root), field.key);
        if child.Done? && child.node.Node? then Done(child.node.(key := field.key)) else child
  }

  // The children of the data under no key that a field was found by.
  function UnknownFields(lib: Library, opt: Options, index: map<GoBytes, Node>, children: seq<Node>, fields: seq<Node>): seq<Node> {
    if children == [] then []
    else
      var rest := UnknownFields(lib, opt, index, children[1..], fields);
      if MatchedKey(lib, opt, index, KeyOf(children[0]), fields) then rest else [children[0]] + rest
  }

  predicate MatchedKey(lib: Library, opt: Options, index: map<GoBytes, Node>, key: GoBytes, fields: seq<Node>) {
    exists i :: 0 <= i < |fields| && FoundUnder(Lookup(lib, opt.nameMatch, index, fields[i]), key)
  }

  predicate FoundUnder(found: Option<Node>, key: GoBytes) {
    found.Some? && KeyOf(found.value) == key
  }

  // What the elements of an array are projected onto.
  function ElementSchema(s: Node): Node
    requires s.Node?
  {
    if s.children != [] then s.children[0] else s
  }

  // Elements that are records or references are projected, all others coerced.
  predicate ProjectsElements(s: Node)
    requires s.Node?
  {
    s.elementType == TypeMap || (ElementSchema(s).Node? && ElementSchema(s).typ in {TypeMap, TypeRef})
  }

  function ItemName(s: Node): GoBytes
    requires s.Node?
  {
    if |s.key| + 5 < TWO_64 then s.key + Ascii("_item") else s.key
  }

  function ProjectArray(lib: Library, opt: Options, data: Node, s: Node, name: GoBytes): Outcome
    requires s.Node?
    decreases data, 2
  {
    if IsMissing(data) then ApplyMissing(lib, opt, s, name)
    else if data.typ != TypeArray then Failed
    else
      var elements := ProjectElements(lib, opt, data.children, s);
      if elements.AllFailed? then Failed
      else Done(Container(TypeArray, name, elements.nodes, s))
  }

  function ProjectElements(lib: Library, opt: Options, elements: seq<Node>, s: Node): Outcomes
    requires s.Node?
    decreases elements, 1
  {
    if elements == [] then AllDone([])
    else
      var first := ProjectElement(lib, opt, elements[0], s);
      if first.Failed? || first.node.NilNode? then AllFailed
      else Followed(first.node, ProjectElements(lib, opt, elements[1..], s))
  }

  function ProjectElement(lib: Library, opt: Options, element: Node, s: Node): Outcome
    requires s.Node?
    decreases element, 4
  {
    if ProjectsElements(s) then
      if ElementSchema(s).NilNode? then Failed else ProjectNode(lib, opt, element, ElementSchema(s), ItemName(s))
    else if element.NilNode? then Failed
    else
      var v := Coerce(lib, opt.lossiness, element.typ, element.value, s.elementType);
      if v.None? then Failed else Done(NewNode(s.elementType, element.key, v.value))
  }
}
