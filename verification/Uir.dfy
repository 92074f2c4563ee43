/** The unified intermediate representation: one tree type shared by every codec. */
module Uir {
  import opened ByteStrings
  import opened Decimals

  datatype UirType =
    | TypeUnknown | TypeNull | TypeString | TypeBytes
    | TypeInt32 | TypeInt64 | TypeUInt32 | TypeUInt64
    | TypeSInt32 | TypeSInt64 | TypeFixed32 | TypeFixed64 | TypeSFixed32 | TypeSFixed64
    | TypeFloat32 | TypeFloat64 | TypeBoolean
    | TypeArray | TypeMap | TypeEnum | TypeUnion | TypeInterface | TypeDefinition | TypeRef
    | TypeTimestamp | TypeDate | TypeTime | TypeDuration | TypeDecimal

  datatype Presence = Present | Null | Missing | Defaulted

  datatype Cardinality = Optional | Required

  // A Go `any`: one constructor per dynamic type the codecs look at. Floats are IEEE 754 bit patterns.
  datatype Value =
    | NoValue
    | Bool(b: bool)
    | Str(s: GoBytes)
    | Blob(s: GoBytes)
    | Int(i: int64)
    | Int32(i32: int32)
    | Int64(i: int64)
    | Uint32(u32: uint32)
    | Uint64(u: uint64)
    | Float32(bits32: uint32)
    | Float64(bits: uint64)
    | Opaque(id: nat)  // any other dynamic type

  // A *uir.Node. The parent link and the type expression are not represented.
  datatype Node =
    | NilNode
    | Node(typ: UirType, key: GoBytes, value: Value, children: seq<Node>,
           elementType: UirType, presence: Presence, cardinality: Cardinality,
           defaultValue: Value, annotations: map<Bytes, Bytes>)

  function NewNode(t: UirType, key: GoBytes, value: Value): Node {
    Node(t, key, value, [], TypeUnknown, if t == TypeNull then Null else Present, Optional, NoValue, map[])
  }

  function SetAnnotation(n: Node, key: Bytes, value: Bytes): (r: Node)
    requires n.Node?
    ensures r.Node? && key in r.annotations && r.annotations[key] == value
  {
    n.(annotations := n.annotations[key := value])
  }

  function Annotation(n: Node, key: Bytes): Bytes {
    if n.Node? && key in n.annotations then n.annotations[key] else []
  }

  // The number of nodes of a tree: what recursion over rearranged children decreases.
  ghost function Size(n: Node): (s: nat)
    ensures s >= 1
    decreases n
  {
    if n.NilNode? then 1 else 1 + SizeAll(n.children)
  }

  ghost function SizeAll(nodes: seq<Node>): nat
    decreases nodes
  {
    if nodes == [] then 0 else Size(nodes[0]) + SizeAll(nodes[1..])
  }

  lemma {:induction false} SizeOfElement(nodes: seq<Node>, i: nat)
    requires i < |nodes|
    ensures Size(nodes[i]) <= SizeAll(nodes)
  {
    if i > 0 {
      SizeOfElement(nodes[1..], i - 1);
    }
  }

  // The key an array element gets. The loops that use it count in a uint64.
  function IndexKey(i: nat): GoBytes {
    if i < 0xFFFF_FFFF_FFFF_FFFF then Decimal(i) else []
  }
}
