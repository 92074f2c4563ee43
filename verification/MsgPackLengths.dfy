/** The bound on lengths in MessagePack: exactly the trees whose lengths fit 32 bits come back. */
module MsgPackLengths {
  import opened ByteStrings
  import opened Uir
  import opened MsgPackFormat
  import opened MsgPackNodes

  // The reader returns something else than this node, or nothing.
  ghost predicate Differs(r: ParseResult, n: Node) {
    r.Parsed? ==> r.node != n
  }

  ghost predicate ListDiffers(r: ListResult, nodes: seq<Node>) {
    r.GotList? ==> r.nodes != nodes
  }

  // ---------- lengths at the top of a tree ----------

  // The length that is written first for a node.
  predicate TopFits(n: Node) {
    n.Node? ==>
      && (n.typ == TypeString ==> |StringOf(n.value)| < TWO_32)
      && (n.typ == TypeBytes ==> |BytesOf(n.value)| < TWO_32)
      && (n.typ == TypeArray || n.typ == TypeMap ==> |n.children| < TWO_32)
  }

  // Whatever is read has lengths of 32 bits at the top, and the key it was asked for.
  lemma ParsedFits(render: Render, key: GoBytes, s: Bytes)
    requires ParseValue(render, key, s).Parsed?
    ensures TopFits(ParseValue(render, key, s).node) && ParseValue(render, key, s).node.key == key
  {}

  lemma NormalTop(n: Node, key: GoBytes)
    requires Packable(n)
    ensures TopFits(Normal(n, key)) <==> TopFits(n)
  {}

  lemma TopDiffers(render: Render, n: Node, key: GoBytes, s: Bytes)
    requires Packable(n) && !TopFits(n)
    ensures Differs(ParseValue(render, key, s), Normal(n, key))
  {
    NormalTop(n, key);
    if ParseValue(render, key, s).Parsed? {
      ParsedFits(render, key, s);
    }
  }

  // A key that is too long is read as a shorter string.
  lemma LongKeyIsCut(render: Render, key: GoBytes, rest: Bytes)
    requires |key| >= TWO_32
    ensures var k := ParseValue(render, [], (StrHead(|key|) + key) + rest);
            k.Parsed? ==> FieldKey(render, k.node) != key
  {
    var s := (StrHead(|key|) + key) + rest;
    assert StrHead(|key|) == [0xDB] + BigEndian(4, |key|);
    assert s[0] == 0xDB && |s| >= 5;
    assert ReadToken(s).token.StrToken?;
  }

  // ---------- the first length that does not fit ----------

  lemma {:induction false} ValueDiffers(render: Render, n: Node, key: GoBytes, rest: Bytes)
    requires Packable(n) && !LengthsFit(n)
    ensures Differs(ParseValue(render, key, Pack(n) + rest), Normal(n, key))
    decreases n, 0
  {
    if !TopFits(n) {
      TopDiffers(render, n, key, Pack(n) + rest);
    } else if n.typ == TypeArray {
      ElementsDiffer(render, n.children, rest);
      ArrayDiffers(render, n.children, key, rest);
    } else {
      FieldsDiffer(render, n.children, rest);
      MapDiffers(render, n.children, key, rest);
    }
  }

  lemma ArrayDiffers(render: Render, nodes: seq<Node>, key: GoBytes, rest: Bytes)
    requires |nodes| < TWO_32 && ListDiffers(ParseElements(render, |nodes|, PackElements(nodes) + rest), NormalElements(nodes))
    ensures Differs(ParseValue(render, key, (ArrayHead(|nodes|) + PackElements(nodes)) + rest), ArrayNode(key, NormalElements(nodes)))
  {
    var body := PackElements(nodes) + rest;
    ArrayHeadReads(|nodes|, body);
    Rejoin(ArrayHead(|nodes|), PackElements(nodes), rest);
    ListParses(render, key, ArrayHead(|nodes|) + body, |nodes|, body);
  }

  lemma MapDiffers(render: Render, nodes: seq<Node>, key: GoBytes, rest: Bytes)
    requires |nodes| < TWO_32 && ListDiffers(ParseFields(render, |nodes|, PackFields(nodes) + rest), NormalFields(nodes))
    ensures Differs(ParseValue(render, key, (MapHead(|nodes|) + PackFields(nodes)) + rest), MapNode(key, NormalFields(nodes)))
  {
    var body := PackFields(nodes) + rest;
    MapHeadReads(|nodes|, body);
    Rejoin(MapHead(|nodes|), PackFields(nodes), rest);
    MapParses(render, key, MapHead(|nodes|) + body, |nodes|, body);
  }

  lemma FitBehind(nodes: seq<Node>)
    requires nodes != [] && LengthsFit(nodes[0]) && AllFit(nodes[1..])
    ensures AllFit(nodes)
  {
    assert forall i | 0 < i < |nodes| :: nodes[i] == nodes[1..][i - 1];
  }

  lemma KeysBehind(nodes: seq<Node>)
    requires nodes != [] && nodes[0].Node? && |nodes[0].key| < TWO_32 && KeysFit(nodes[1..])
    ensures KeysFit(nodes)
  {
    assert forall i | 0 < i < |nodes| :: nodes[i] == nodes[1..][i - 1];
  }

  // A list differs if its first node or the rest of it does.
  lemma FrontDiffers(first: Node, tail: ListResult, normal: Node, normals: seq<Node>)
    requires first != normal || ListDiffers(tail, normals)
    ensures ListDiffers(InFront([first], tail), [normal] + normals)
  {
    if tail.GotList? {
      assert ([first] + tail.nodes)[0] == first && ([first] + tail.nodes)[1..] == tail.nodes;
      assert ([normal] + normals)[0] == normal && ([normal] + normals)[1..] == normals;
    }
  }

  lemma FirstElement(render: Render, count: nat, s: Bytes, first: ParseResult)
    requires count > 0 && first == ParseValue(render, [], s)
    ensures ParseElements(render, count, s)
         == if first.NotParsed? then NoList else InFront([first.node], ParseElements(render, count - 1, first.rest))
  {}

  lemma FirstField(render: Render, count: nat, s: Bytes, first: ParseResult)
    requires count > 0 && first == ParseField(render, s)
    ensures ParseFields(render, count, s)
         == if first.NotParsed? then NoList else InFront([first.node], ParseFields(render, count - 1, first.rest))
  {}

  // The first of several is read otherwise, or it is read rightly and the list behind it is not.
  ghost predicate GoesWrong(first: ParseResult, normal: Node, behind: Bytes, tail: ListResult, normals: seq<Node>) {
    Differs(first, normal) || (first == Parsed(normal, behind) && ListDiffers(tail, normals))
  }

  lemma ElementsGoWrong(render: Render, nodes: seq<Node>, s: Bytes, first: ParseResult, behind: Bytes)
    requires nodes != [] && first == ParseValue(render, [], s)
    requires GoesWrong(first, Normal(nodes[0], []), behind, ParseElements(render, |nodes| - 1, behind), NormalElements(nodes[1..]))
    ensures ListDiffers(ParseElements(render, |nodes|, s), NormalElements(nodes))
  {
    FirstElement(render, |nodes|, s, first);
    if first.Parsed? {
      FrontDiffers(first.node, ParseElements(render, |nodes| - 1, first.rest), Normal(nodes[0], []), NormalElements(nodes[1..]));
    }
  }

  lemma {:induction false} ElementsDiffer(render: Render, nodes: seq<Node>, rest: Bytes)
    requires AllPackable(nodes) && !AllFit(nodes)
    ensures ListDiffers(ParseElements(render, |nodes|, PackElements(nodes) + rest), NormalElements(nodes))
    decreases nodes, 1
  {
    var more := nodes[1..];
    var behind := PackElements(more) + rest;
    var first := ParseValue(render, [], Pack(nodes[0]) + behind);
    if LengthsFit(nodes[0]) {
      if AllFit(more) {
        FitBehind(nodes);
      }
      PackedReads(render, nodes[0], [], behind);
      ElementsDiffer(render, more, rest);
    } else {
      ValueDiffers(render, nodes[0], [], behind);
    }
    ElementsGoWrong(render, nodes, Pack(nodes[0]) + behind, first, behind);
    Rejoin(Pack(nodes[0]), PackElements(more), rest);
  }

  lemma FieldsGoWrong(render: Render, nodes: seq<Node>, s: Bytes, first: ParseResult, behind: Bytes)
    requires nodes != [] && nodes[0].Node? && first == ParseField(render, s)
    requires GoesWrong(first, Normal(nodes[0], nodes[0].key), behind, ParseFields(render, |nodes| - 1, behind), NormalFields(nodes[1..]))
    ensures ListDiffers(ParseFields(render, |nodes|, s), NormalFields(nodes))
  {
    FirstField(render, |nodes|, s, first);
    if first.Parsed? {
      FrontDiffers(first.node, ParseFields(render, |nodes| - 1, first.rest), Normal(nodes[0], nodes[0].key), NormalFields(nodes[1..]));
    }
  }

  lemma {:induction false} FieldsDiffer(render: Render, nodes: seq<Node>, rest: Bytes)
    requires AllPackable(nodes) && NilNode !in nodes && !(AllFit(nodes) && KeysFit(nodes))
    ensures ListDiffers(ParseFields(render, |nodes|, PackFields(nodes) + rest), NormalFields(nodes))
    decreases nodes, 2
  {
    var behind := PackFields(nodes[1..]) + rest;
    var s := (PackKey(nodes[0]) + Pack(nodes[0])) + behind;
    FirstOrRest(render, nodes, behind, s, rest);
    FieldsGoWrong(render, nodes, s, ParseField(render, s), behind);
    Rejoin(PackKey(nodes[0]) + Pack(nodes[0]), PackFields(nodes[1..]), rest);
  }

  lemma {:induction false} FirstOrRest(render: Render, nodes: seq<Node>, behind: Bytes, s: Bytes, rest: Bytes)
    requires AllPackable(nodes) && NilNode !in nodes && !(AllFit(nodes) && KeysFit(nodes))
    requires behind == PackFields(nodes[1..]) + rest && s == (PackKey(nodes[0]) + Pack(nodes[0])) + behind
    ensures GoesWrong(ParseField(render, s), Normal(nodes[0], nodes[0].key), behind,
                      ParseFields(render, |nodes| - 1, behind), NormalFields(nodes[1..]))
    decreases nodes, 1
  {
    var n, more := nodes[0], nodes[1..];
    if LengthsFit(n) && |n.key| < TWO_32 {
      if AllFit(more) && KeysFit(more) {
        FitBehind(nodes);
        KeysBehind(nodes);
      }
      FieldReads(render, n, behind);
      FieldsDiffer(render, more, rest);
    } else {
      FieldDiffers(render, n, behind);
    }
  }

  lemma {:induction false} FieldDiffers(render: Render, n: Node, behind: Bytes)
    requires n.Node? && Packable(n) && !(LengthsFit(n) && |n.key| < TWO_32)
    ensures Differs(ParseField(render, (PackKey(n) + Pack(n)) + behind), Normal(n, n.key))
    decreases n, 1
  {
    Rejoin(PackKey(n), Pack(n), behind);
    if |n.key| < TWO_32 {
      StringReads(render, n.key, [], Pack(n) + behind);
      ValueDiffers(render, n, n.key, behind);
    } else {
      LongKeyIsCut(render, n.key, Pack(n) + behind);
      var k := ParseValue(render, [], PackKey(n) + (Pack(n) + behind));
      if k.Parsed? && ParseValue(render, FieldKey(render, k.node), k.rest).Parsed? {
        ParsedFits(render, FieldKey(render, k.node), k.rest);
        NormalKey(n, n.key);
      }
    }
  }

  lemma NormalKey(n: Node, key: GoBytes)
    ensures Normal(n, key).Node? && Normal(n, key).key == key
  {}

  // Main result: a tree comes back in its normal form if and only if every length that is written for it - of
  // strings, byte strings, keys, arrays and maps, at any level - fits the 32 bits the format has for it.
  lemma ComesBackIff(render: Render, n: Node)
    requires Packable(n)
    ensures ParseAll(render, Pack(n)) == Some(Normal(n, [])) <==> LengthsFit(n)
  {
    if LengthsFit(n) {
      PackThenParse(render, n);
    } else {
      ValueDiffers(render, n, [], []);
      assert Pack(n) + [] == Pack(n);
    }
  }

  // A string of exactly 2^32 bytes, which is written with the length 0.
  lemma LongStringIsLost(render: Render, s: GoBytes, key: GoBytes)
    requires |s| == TWO_32
    ensures var n := NewNode(TypeString, key, Str(s));
            && ReadToken(Pack(n)) == GotToken(StrToken(0), s) && ParseAll(render, Pack(n)) == None
  {
    var n := NewNode(TypeString, key, Str(s));
    WrapsToZero();
    assert Pack(n) == StrHead(TWO_32) + s == ([0xDB] + [0, 0, 0, 0]) + s;
    assert Pack(n)[1..5] == [0, 0, 0, 0] && Pack(n)[5..] == s;
    assert ReadToken(Pack(n)) == GotToken(StrToken(0), s);
  }

  lemma WrapsToZero()
    ensures BigEndian(4, TWO_32) == [0, 0, 0, 0] && FromBigEndian([0, 0, 0, 0]) == 0
  {
    assert BigEndian(1, 0x100) == BigEndian(0, 1) + [0];
    assert BigEndian(2, 0x1_0000) == BigEndian(1, 0x100) + [0];
    assert BigEndian(3, 0x100_0000) == BigEndian(2, 0x1_0000) + [0];
    assert BigEndian(4, 0x1_0000_0000) == BigEndian(3, 0x100_0000) + [0];
    assert [0, 0, 0, 0][..3] == [0, 0, 0] && [0, 0, 0][..2] == [0, 0] && [0, 0][..1] == [0];
  }
}
