/** The MessagePack writer and reader, as loops over children and a remaining byte string. */
module MsgPackCodec {
  import opened ByteStrings
  import opened Uir
  import opened Floats
  import opened MsgPackFormat
  import opened MsgPackNodes

  datatype PackError = UnsupportedType(typ: UirType) | NilField
  datatype Result<+T> = Ok(value: T) | Err(error: PackError)

  // ---------- writing ----------

  method GenerateMessagePack(n: Node) returns (r: Result<Bytes>)
    ensures r.Ok? <==> Packable(n)
    ensures r.Ok? ==> r.value == Pack(n)
    decreases Size(n), 2
  {
    if n.NilNode? {
      return Ok([0xC0]);
    }
    if n.typ == TypeArray {
      r := AppendElements(ArrayHead(|n.children|), n.children);
    } else if n.typ == TypeMap {
      r := AppendFields(MapHead(|n.children|), n.children);
    } else if IsScalarType(n.typ) {
      r := Ok(ScalarBytes(n.typ, n.value));
    } else {
      r := Err(UnsupportedType(n.typ));
    }
  }

  method AppendElements(head: Bytes, children: seq<Node>) returns (r: Result<Bytes>)
    ensures r.Ok? <==> AllPackable(children)
    ensures r.Ok? ==> r.value == head + PackElements(children)
    decreases SizeAll(children), 3
  {
    var buf := head;
    assert children[0..] == children;
    for i := 0 to |children|
      invariant forall k | 0 <= k < i :: Packable(children[k])
      invariant buf + PackElements(children[i..]) == head + PackElements(children)
    {
      SizeOfElement(children, i);
      var cb := GenerateMessagePack(children[i]);
      if cb.Err? {
        return cb;
      }
      assert children[i..][1..] == children[i + 1..];
      Rejoin(buf, cb.value, PackElements(children[i + 1..]));
      buf := buf + cb.value;
    }
    return Ok(buf);
  }

  method AppendFields(head: Bytes, children: seq<Node>) returns (r: Result<Bytes>)
    ensures r.Ok? <==> NilNode !in children && AllPackable(children)
    ensures r.Ok? ==> r.value == head + PackFields(children)
    decreases SizeAll(children), 4
  {
    var buf := head;
    assert children[0..] == children;
    for i := 0 to |children|
      invariant forall k | 0 <= k < i :: children[k].Node? && Packable(children[k])
      invariant buf + PackFields(children[i..]) == head + PackFields(children)
    {
      SizeOfElement(children, i);
      var more := AppendField(buf, children[i]);
      if more.Err? {
        return more;
      }
      assert children[i..][1..] == children[i + 1..];
      Rejoin(buf, PackKey(children[i]) + Pack(children[i]), PackFields(children[i + 1..]));
      buf := more.value;
    }
    return Ok(buf);
  }

  // A key, written like any string, and its value.
  method AppendField(buf: Bytes, child: Node) returns (r: Result<Bytes>)
    ensures r.Ok? <==> child.Node? && Packable(child)
    ensures r.Ok? ==> r.value == buf + (PackKey(child) + Pack(child))
    decreases Size(child), 3
  {
    if child.NilNode? {
      return Err(NilField);
    }
    var kb := ScalarBytes(TypeString, Str(child.key));
    var cb := GenerateMessagePack(child);
    if cb.Err? {
      return cb;
    }
    Rejoin(buf, kb, cb.value);
    return Ok(buf + kb + cb.value);
  }

  // ---------- reading ----------

  // A big-endian argument, if there are enough bytes for it.
  method Argument(data: Bytes, width: nat) returns (ok: bool, v: nat, rest: Bytes)
    ensures ok <==> |data| >= width
    ensures ok ==> v == FromBigEndian(data[..width]) && rest == data[width..] && v < Pow256(width)
  {
    if |data| < width {
      return false, 0, data;
    }
    FromBigEndianBound(data[..width]);
    return true, FromBigEndian(data[..width]), data[width..];
  }

  method ParseMessagePackValue(render: Render, key: GoBytes, data: Bytes) returns (r: ParseResult)
    ensures r == ParseValue(render, key, data)
    decreases |data|, 5
  {
    if data == [] {
      return NotParsed;
    }
    var b := data[0];
    if b <= 0x7F || b >= 0xE0 || b in {0xC0, 0xC2, 0xC3} {
      r := ParseOneByte(render, key, data);
      return;
    }
    if 0xA0 <= b <= 0xBF {
      r := ParseShortString(render, key, data);
    } else if 0x80 <= b <= 0x9F {
      r := ParseShortContainer(render, key, data);
    } else if 0xCA <= b <= 0xD3 {
      r := ParseNumber(render, key, data);
    } else if b >= 0xDC {
      r := ParseLongContainer(render, key, data);
    } else {
      r := ParseLongBytes(render, key, data);
    }
  }

  // Strings, arrays and maps with the length in their lead byte.
  method ParseShortString(render: Render, key: GoBytes, data: Bytes) returns (r: ParseResult)
    requires data != [] && 0xA0 <= data[0] <= 0xBF
    ensures r == ParseValue(render, key, data)
  {
    ShortIsRead(data);
    TakenParses(render, key, data, TypeString, data[0] - 0xA0, data[1..]);
    r := TakeBytes(TypeString, key, data[0] - 0xA0, data[1..]);
  }

  method ParseShortContainer(render: Render, key: GoBytes, data: Bytes) returns (r: ParseResult)
    requires data != [] && 0x80 <= data[0] <= 0x9F
    ensures r == ParseValue(render, key, data)
    decreases |data|, 4
  {
    var b, rest := data[0], data[1..];
    ShortIsRead(data);
    if b >= 0x90 {
      ListParses(render, key, data, b - 0x90, rest);
      r := ParseMessagePackArray(render, key, b - 0x90, rest);
    } else {
      MapParses(render, key, data, b - 0x80, rest);
      r := ParseMessagePackMap(render, key, b - 0x80, rest);
    }
  }

  lemma ShortIsRead(data: Bytes)
    requires data != [] && 0x80 <= data[0] <= 0xBF
    ensures var b := data[0];
            ReadToken(data) == GotToken(if b >= 0xA0 then StrToken(b - 0xA0) else if b >= 0x90 then ArrayToken(b - 0x90)
                                        else MapToken(b - 0x80), data[1..])
  {}

  // A value that is its lead byte: null, a boolean or a small integer.
  method ParseOneByte(render: Render, key: GoBytes, data: Bytes) returns (r: ParseResult)
    requires data != [] && (data[0] <= 0x7F || data[0] >= 0xE0 || data[0] in {0xC0, 0xC2, 0xC3})
    ensures r == ParseValue(render, key, data)
  {
    var b, rest := data[0], data[1..];
    TokenParses(render, key, data, ReadToken(data).token, rest);
    if b == 0xC0 {
      return Parsed(NewNode(TypeNull, key, NoValue), rest);
    }
    if b == 0xC2 {
      return Parsed(NewNode(TypeBoolean, key, Bool(false)), rest);
    }
    if b == 0xC3 {
      return Parsed(NewNode(TypeBoolean, key, Bool(true)), rest);
    }
    if b <= 0x7F {
      return Parsed(NewNode(TypeInt64, key, Int64(b)), rest);
    }
    return Parsed(NewNode(TypeInt64, key, Int64(b as int - 0x100)), rest);
  }

  // The payload of a string or a byte string.
  method TakeBytes(t: UirType, key: GoBytes, n: uint32, data: Bytes) returns (r: ParseResult)
    ensures r == if |data| < n then NotParsed
                 else Parsed(NewNode(t, key, if t == TypeString then Str(data[..n]) else Blob(data[..n])), data[n..])
  {
    if |data| < n {
      return NotParsed;
    }
    return Parsed(NewNode(t, key, if t == TypeString then Str(data[..n]) else Blob(data[..n])), data[n..]);
  }

  // Lead bytes 0xCA to 0xD3.
  method ParseNumber(render: Render, key: GoBytes, data: Bytes) returns (r: ParseResult)
    requires data != [] && 0xCA <= data[0] <= 0xD3
    ensures r == ParseValue(render, key, data)
  {
    var b := data[0];
    var width := if b in {0xCC, 0xD0} then 1 else if b in {0xCD, 0xD1} then 2 else if b in {0xCA, 0xCE, 0xD2} then 4 else 8;
    var ok, v, rest := Argument(data[1..], width);
    if !ok {
      return NotParsed;
    }
    assert data[1..][..width] == data[1..1 + width];
    TokenParses(render, key, data, ArgumentToken(b, v), rest);
    var node := NumberNode(b, v, width, key);
    return Parsed(node, rest);
  }

  method NumberNode(b: byte, v: nat, width: nat, key: GoBytes) returns (n: Node)
    requires 0xCA <= b <= 0xD3 && width == ArgumentWidth(b) && v < Pow256(width)
    ensures n == ScalarNode(ArgumentToken(b, v), key)
  {
    Pow256Widths();
    if b == 0xCA {
      return NewNode(TypeFloat64, key, Float64(SingleToDouble(v)));
    }
    if b == 0xCB {
      return NewNode(TypeFloat64, key, Float64(v));
    }
    if b <= 0xCF {
      return NewNode(TypeUInt64, key, Uint64(v));
    }
    SignedFits(v, width);
    return NewNode(TypeInt64, key, Int64(Signed(v, width)));
  }

  // Strings and byte strings with a length argument; any other lead byte is not supported.
  method ParseLongBytes(render: Render, key: GoBytes, data: Bytes) returns (r: ParseResult)
    requires data != [] && (0xC1 <= data[0] <= 0xC9 || 0xD4 <= data[0] <= 0xDB) && data[0] != 0xC2 && data[0] != 0xC3
    ensures r == ParseValue(render, key, data)
  {
    var b := data[0];
    if b !in {0xC4, 0xC5, 0xC6, 0xD9, 0xDA, 0xDB} {
      return NotParsed;
    }
    var width := if b in {0xC4, 0xD9} then 1 else if b in {0xC5, 0xDA} then 2 else 4;
    var ok, n, rest := Argument(data[1..], width);
    if !ok {
      return NotParsed;
    }
    LengthIsRead(data, width, n, rest);
    var t := if b <= 0xC6 then TypeBytes else TypeString;
    TakenParses(render, key, data, t, n, rest);
    r := TakeBytes(t, key, n, rest);
  }

  // Behind a lead byte that announces a length the rest is taken as the announced kind.
  lemma LengthIsRead(data: Bytes, width: nat, n: nat, rest: Bytes)
    requires data != [] && (0xC4 <= data[0] <= 0xC6 || 0xD9 <= data[0] <= 0xDF) && width == ArgumentWidth(data[0])
    requires |data| >= 1 + width && n == FromBigEndian(data[1..][..width]) && rest == data[1..][width..]
    ensures n < TWO_32
    ensures var b := data[0];
            ReadToken(data) == GotToken(if b <= 0xC6 then BinToken(n) else if b <= 0xDB then StrToken(n)
                                        else if b <= 0xDD then ArrayToken(n) else MapToken(n), rest)
  {
    assert data[1..][..width] == data[1..1 + width];
    Pow256Widths();
    FromBigEndianBound(data[1..1 + width]);
  }

  lemma TakenParses(render: Render, key: GoBytes, s: Bytes, t: UirType, n: uint32, rest: Bytes)
    requires t == TypeString || t == TypeBytes
    requires ReadToken(s) == GotToken(if t == TypeBytes then BinToken(n) else StrToken(n), rest)
    ensures ParseValue(render, key, s)
         == if |rest| < n then NotParsed
            else Parsed(NewNode(t, key, if t == TypeString then Str(rest[..n]) else Blob(rest[..n])), rest[n..])
  {}

  // Arrays and maps with a length argument.
  method ParseLongContainer(render: Render, key: GoBytes, data: Bytes) returns (r: ParseResult)
    requires data != [] && 0xDC <= data[0] <= 0xDF
    ensures r == ParseValue(render, key, data)
    decreases |data|, 4
  {
    var b := data[0];
    var width := if b in {0xDC, 0xDE} then 2 else 4;
    var ok, n, rest := Argument(data[1..], width);
    if !ok {
      return NotParsed;
    }
    LengthIsRead(data, width, n, rest);
    if b <= 0xDD {
      ListParses(render, key, data, n, rest);
      r := ParseMessagePackArray(render, key, n, rest);
    } else {
      MapParses(render, key, data, n, rest);
      r := ParseMessagePackMap(render, key, n, rest);
    }
  }

  method ParseMessagePackArray(render: Render, key: GoBytes, length: uint32, data: Bytes) returns (r: ParseResult)
    ensures var list := ParseElements(render, length, data);
            r == if list.NoList? then NotParsed else Parsed(ArrayNode(key, list.nodes), list.rest)
    decreases |data|, 7
  {
    var children: seq<Node>, rest := [], data;
    ghost var left: nat := length;
    InFrontOfNothing(ParseElements(render, length, data));
    for i := 0 to length
      invariant |rest| <= |data| && left == length - i
      invariant InFront(children, ParseElements(render, left, rest)) == ParseElements(render, length, data)
    {
      var child := ParseMessagePackValue(render, [], rest);
      if child.NotParsed? {
        return NotParsed;
      }
      InFrontTwice(children, [child.node], ParseElements(render, left - 1, child.rest));
      children, rest, left := children + [child.node], child.rest, left - 1;
    }
    InFrontAll(children, rest);
    return Parsed(ArrayNode(key, children), rest);
  }

  method ParseMessagePackMap(render: Render, key: GoBytes, length: uint32, data: Bytes) returns (r: ParseResult)
    ensures var list := ParseFields(render, length, data);
            r == if list.NoList? then NotParsed else Parsed(MapNode(key, list.nodes), list.rest)
    decreases |data|, 7
  {
    var children: seq<Node>, rest := [], data;
    ghost var left: nat := length;
    InFrontOfNothing(ParseFields(render, length, data));
    for i := 0 to length
      invariant |rest| <= |data| && left == length - i
      invariant InFront(children, ParseFields(render, left, rest)) == ParseFields(render, length, data)
    {
      var child := ParseMessagePackField(render, rest);
      if child.NotParsed? {
        return NotParsed;
      }
      InFrontTwice(children, [child.node], ParseFields(render, left - 1, child.rest));
      children, rest, left := children + [child.node], child.rest, left - 1;
    }
    InFrontAll(children, rest);
    return Parsed(MapNode(key, children), rest);
  }

  // One key and its value; a key that is not a string is rendered as one.
  method ParseMessagePackField(render: Render, data: Bytes) returns (r: ParseResult)
    ensures r == ParseField(render, data)
    decreases |data|, 6
  {
    var k := ParseMessagePackValue(render, [], data);
    if k.NotParsed? {
      return NotParsed;
    }
    var kStr := FieldKey(render, k.node);
    r := ParseMessagePackValue(render, kStr, k.rest);
  }

  lemma InFrontOfNothing(r: ListResult)
    ensures InFront([], r) == r
  {
    if r.GotList? {
      assert [] + r.nodes == r.nodes;
    }
  }

  lemma InFrontTwice(a: seq<Node>, b: seq<Node>, r: ListResult)
    ensures InFront(a, InFront(b, r)) == InFront(a + b, r)
  {
    if r.GotList? {
      assert a + (b + r.nodes) == (a + b) + r.nodes;
    }
  }

  lemma InFrontAll(a: seq<Node>, rest: Bytes)
    ensures InFront(a, GotList([], rest)) == GotList(a, rest)
  {
    assert a + [] == a;
  }

  method ParseMessagePack(render: Render, data: Bytes) returns (r: Option<Node>)
    ensures r == ParseAll(render, data)
  {
    var v := ParseMessagePackValue(render, [], data);
    if v.NotParsed? || v.rest != [] {
      return None;
    }
    return Some(v.node);
  }
}
