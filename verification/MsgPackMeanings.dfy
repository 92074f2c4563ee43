/** What MessagePack keeps of any tree whose values are of the types its tags say. */
module MsgPackMeanings {
  import opened ByteStrings
  import opened CodecChain
  import opened Conversions
  import opened Floats
  import opened KeyOrder
  import opened MsgPackFormat
  import opened MsgPackNodes
  import opened Uir

  // Every value has the type of its tag; an integer may have any integer type.
  predicate Honest(n: Node)
    decreases n, 0
  {
    n.NilNode? ||
    match n.typ
    case TypeNull => true
    case TypeBoolean => n.value.Bool?
    case TypeString => n.value.Str?
    case TypeBytes => n.value.Blob?
    case TypeFloat32 => n.value.Float32?
    case TypeFloat64 => n.value.Float64?
    case TypeArray => AllHonest(n.children)
    case TypeMap => NilNode !in n.children && AllHonest(n.children)
    case t => IsIntegerType(t) && IsWhole(n.value)
  }

  predicate AllHonest(nodes: seq<Node>)
    decreases nodes, 1
  {
    forall i | 0 <= i < |nodes| :: Honest(nodes[i])
  }

  // The normal form of an honest tree means the same.
  lemma {:induction false} NormalMeansTheSame(n: Node, key: GoBytes)
    requires Honest(n)
    ensures Packable(n) && MeaningOf(Normal(n, key)) == MeaningOf(n)
    decreases n, 1
  {
    if n.NilNode? {
    } else if n.typ == TypeArray {
      ElementsMeanTheSame(n.children, NormalElements(n.children));
    } else if n.typ == TypeMap {
      FieldsMeanTheSame(n.children, NormalFields(n.children));
    } else {
      ScalarMeansTheSame(n, key);
    }
  }

  lemma ScalarMeansTheSame(n: Node, key: GoBytes)
    requires Honest(n) && n.Node? && n.typ != TypeArray && n.typ != TypeMap
    ensures Packable(n) && MeaningOf(Normal(n, key)) == MeaningOf(n)
  {}

  lemma {:induction false} ElementsMeanTheSame(nodes: seq<Node>, r: seq<Node>)
    requires AllHonest(nodes) && r == NormalElements(nodes)
    ensures AllPackable(nodes) && ElementMeanings(r) == ElementMeanings(nodes)
    decreases nodes, 0
  {
    if nodes != [] {
      assert r[0] == Normal(nodes[0], []) && r[1..] == NormalElements(nodes[1..]);
      NormalMeansTheSame(nodes[0], []);
      ElementsMeanTheSame(nodes[1..], r[1..]);
    }
  }

  lemma {:induction false} FieldsMeanTheSame(nodes: seq<Node>, r: seq<Node>)
    requires AllHonest(nodes) && NilNode !in nodes && r == NormalFields(nodes)
    ensures AllPackable(nodes) && FieldMeanings(r) == FieldMeanings(nodes)
    decreases nodes, 0
  {
    if nodes != [] {
      var key := nodes[0].key;
      assert r[0] == Normal(nodes[0], key) && r[1..] == NormalFields(nodes[1..]);
      NormalMeansTheSame(nodes[0], key);
      NormalKey(nodes[0], key);
      FieldsMeanTheSame(nodes[1..], r[1..]);
    }
  }

  lemma NormalKey(n: Node, key: GoBytes)
    ensures KeyOf(Normal(n, key)) == key
  {}

  // Main result: an honest tree whose lengths fit is read back with its meaning.
  lemma MeaningComesBack(render: Render, n: Node)
    requires Honest(n) && LengthsFit(n)
    ensures Packable(n) && ParseAll(render, Pack(n)).Some?
    ensures MeaningOf(ParseAll(render, Pack(n)).value) == MeaningOf(n)
  {
    NormalMeansTheSame(n, []);
    PackThenParse(render, n);
  }

  // A float32 is read back as the double of the same sign and exactly the same magnitude.
  lemma FloatComesBack(render: Render, bits: uint32)
    requires (bits / 0x80_0000) % 256 != 255
    ensures var n := ParseAll(render, [0xCA] + BigEndian(4, bits));
            && n.Some? && n.value.Node? && n.value.typ == TypeFloat64 && n.value.value.Float64?
            && Agrees(n.value.value.bits, bits / 0x8000_0000, SingleMagnitude(bits))
  {
    var n := NewNode(TypeFloat32, [], Float32(bits));
    PackThenParse(render, n);
    SingleExpansionIsExact(bits);
    assert Pack(n) == [0xCA] + BigEndian(4, bits);
  }

  // ---------- keys ----------

  // A key that is a number instead of a string is rendered.
  lemma IntegerKeyIsRendered(render: Render, i: int64, n: Node)
    requires Packable(n) && LengthsFit(n)
    ensures ParseAll(render, [0x81] + IntHead(i) + Pack(n)) == Some(MapNode([], [Normal(n, render(Int64(i)))]))
  {
    var body := IntHead(i) + Pack(n);
    var s, field := [0x81] + body, Normal(n, render(Int64(i)));
    assert s == [0x81] + IntHead(i) + Pack(n) && s[1..] == body;
    MapParses(render, [], s, 1, body);
    RenderedField(render, i, n, body);
    assert ParseFields(render, 0, []) == GotList([], []) && [field] + [] == [field];
    assert ParseFields(render, 1, body) == InFront([field], ParseFields(render, 0, []));
  }

  lemma RenderedField(render: Render, i: int64, n: Node, body: Bytes)
    requires Packable(n) && LengthsFit(n) && body == IntHead(i) + Pack(n)
    ensures ParseField(render, body) == Parsed(Normal(n, render(Int64(i))), [])
  {
    IntHeadReads(i, Pack(n));
    TokenParses(render, [], body, IntToken(i), Pack(n));
    PackedReads(render, n, render(Int64(i)), []);
    assert Pack(n) + [] == Pack(n);
  }
}
