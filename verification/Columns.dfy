/** Records turned into columns, as the columnar writers do first. */
module Columns {
  import opened ByteStrings
  import opened KeyOrder
  import opened PlainValues
  import opened Uir

  datatype Head = Head(name: GoBytes, code: byte)

  // A named column with one value per record; NoValue where a record lacks the key.
  datatype Column = Column(name: GoBytes, code: byte, values: seq<Value>)

  // How a format codes types: the code of a node type, the node type and the kind of value of
  // a code, and what the writer makes of a value before it writes it as one of a kind.
  datatype Coding = Coding(code: UirType -> byte, typ: byte -> UirType, kind: byte -> Kind,
                           adapt: (Library, Kind, Value) -> Value)

  function AdaptedAll(coding: Coding, lib: Library, kind: Kind, values: seq<Value>): (r: seq<Value>)
    ensures |r| == |values|
  {
    seq(|values|, i requires 0 <= i < |values| => coding.adapt(lib, kind, values[i]))
  }

  // A value that has the type of its column is written as it is.
  ghost predicate KeepsFitting(coding: Coding, lib: Library) {
    forall kind, v | Fitting(kind, v) :: coding.adapt(lib, kind, v) == v
  }

  lemma FittingIsKept(coding: Coding, lib: Library, kind: Kind, values: seq<Value>)
    requires KeepsFitting(coding, lib) && forall i | 0 <= i < |values| :: Fitting(kind, values[i])
    ensures AdaptedAll(coding, lib, kind, values) == values
  {
    forall i | 0 <= i < |values| ensures coding.adapt(lib, kind, values[i]) == values[i] {
      assert Fitting(kind, values[i]);
    }
  }

  // A value comes back exactly if it has the dynamic type of the kind it is written as.
  lemma ValueSurvivesIff(coding: Coding, lib: Library, kind: Kind, v: Value, rest: Bytes)
    requires KeepsFitting(coding, lib)
    ensures ReadValue(kind, Encode(kind, coding.adapt(lib, kind, v)) + rest) == GotValue(v, rest) <==> Fitting(kind, v)
  {
    var s := Encode(kind, coding.adapt(lib, kind, v)) + rest;
    if Fitting(kind, v) {
      ValueReads(kind, v, rest);
    } else if ReadValue(kind, s).GotValue? {
      ReadIsFitting(kind, s);
    }
  }

  // The column that comes back.
  function Stored(coding: Coding, lib: Library, c: Column): (r: Column)
    ensures r.name == c.name && r.code == c.code && |r.values| == |c.values|
  {
    var kind := coding.kind(c.code);
    c.(values := KeptAll(kind, AdaptedAll(coding, lib, kind, c.values)))
  }

  function StoredAll(coding: Coding, lib: Library, cols: seq<Column>): (r: seq<Column>)
    ensures |r| == |cols|
  {
    seq(|cols|, i requires 0 <= i < |cols| => Stored(coding, lib, cols[i]))
  }

  // The texts of a column, as they are written, have lengths of 32 bits.
  ghost predicate ShortTexts(coding: Coding, lib: Library, c: Column) {
    var kind := coding.kind(c.code);
    forall k | 0 <= k < |c.values| :: |TextOf(kind, coding.adapt(lib, kind, c.values[k]))| < TWO_32
  }

  lemma StoredFits(coding: Coding, lib: Library, c: Column)
    requires KeepsFitting(coding, lib) && ShortTexts(coding, lib, c)
    ensures var kind, r := coding.kind(c.code), Stored(coding, lib, c);
            && (forall k | 0 <= k < |r.values| :: Fitting(kind, r.values[k]))
            && EncodeAll(kind, AdaptedAll(coding, lib, kind, r.values)) == EncodeAll(kind, AdaptedAll(coding, lib, kind, c.values))
  {
    var kind := coding.kind(c.code);
    KeptAllFit(kind, AdaptedAll(coding, lib, kind, c.values));
    FittingIsKept(coding, lib, kind, Stored(coding, lib, c).values);
  }

  method WriteValues(coding: Coding, lib: Library, kind: Kind, values: seq<Value>) returns (p: Bytes)
    ensures p == EncodeAll(kind, AdaptedAll(coding, lib, kind, values))
  {
    p := [];
    ghost var all := AdaptedAll(coding, lib, kind, values);
    assert all[0..] == all;
    for i := 0 to |values|
      invariant p + EncodeAll(kind, all[i..]) == EncodeAll(kind, all)
    {
      var v := coding.adapt(lib, kind, values[i]);
      assert all[i..][0] == v && all[i..][1..] == all[i + 1..];
      Rejoin(p, Encode(kind, v), EncodeAll(kind, all[i + 1..]));
      p := p + Encode(kind, v);
    }
    assert p + [] == p;
  }

  // The records of a document.
  function RowsOf(n: Node): seq<Node> {
    if n.NilNode? then []
    else if n.typ == TypeArray then n.children
    else if n.typ == TypeMap && IsRootKey(n.key) && |n.children| == 1 && n.children[0].Node? && n.children[0].typ == TypeMap
    then [n.children[0]]
    else [n]
  }

  predicate IsRootKey(key: Bytes) {
    key == Ascii("Root") || key == Ascii("root") || key == Ascii("graphql_root") || key == Ascii("proto_root")
  }

  // The source dereferences every record and every field of it.
  predicate NoNil(rows: seq<Node>) {
    forall r | 0 <= r < |rows| :: rows[r].Node? && NilNode !in rows[r].children
  }

  function ChildByKey(children: seq<Node>, key: GoBytes): Option<Node> {
    if children == [] then None
    else if KeyOf(children[0]) == key then Some(children[0])
    else ChildByKey(children[1..], key)
  }

  function Cell(row: Node, name: GoBytes): Value {
    var c := if row.Node? then ChildByKey(row.children, name) else None;
    if c.Some? && c.value.Node? then c.value.value else NoValue
  }

  // The names of the heads, each with the place it stands at.
  predicate HasName(heads: seq<Head>, name: GoBytes) {
    exists i :: 0 <= i < |heads| && heads[i].name == name
  }

  function WithChild(heads: seq<Head>, c: Node, code: UirType -> byte): seq<Head> {
    if c.NilNode? || HasName(heads, c.key) then heads else heads + [Head(c.key, code(c.typ))]
  }

  function WithChildren(heads: seq<Head>, children: seq<Node>, code: UirType -> byte): seq<Head> {
    if children == [] then heads
    else WithChild(WithChildren(heads, children[..|children| - 1], code), children[|children| - 1], code)
  }

  // One head per key, in the order in which the keys first appear, with the code of the first value.
  function HeadsOf(rows: seq<Node>, code: UirType -> byte): seq<Head> {
    if rows == [] then []
    else
      var last := rows[|rows| - 1];
      WithChildren(HeadsOf(rows[..|rows| - 1], code), if last.Node? then last.children else [], code)
  }

  function ColumnFor(head: Head, rows: seq<Node>): (c: Column)
    ensures |c.values| == |rows|
  {
    Column(head.name, head.code, seq(|rows|, r requires 0 <= r < |rows| => Cell(rows[r], head.name)))
  }

  function ColumnsOf(rows: seq<Node>, code: UirType -> byte): (cols: seq<Column>)
    ensures forall i | 0 <= i < |cols| :: |cols[i].values| == |rows|
  {
    var heads := HeadsOf(rows, code);
    seq(|heads|, i requires 0 <= i < |heads| => ColumnFor(heads[i], rows))
  }

  // The keys in the order of their first appearance, each with the code of its first value.
  method CollectHeads(rows: seq<Node>, code: UirType -> byte) returns (order: seq<Head>)
    requires NoNil(rows)
    ensures order == HeadsOf(rows, code)
  {
    order := [];
    var seen: set<GoBytes> := {};
    for r := 0 to |rows|
      invariant order == HeadsOf(rows[..r], code)
      invariant forall name :: name in seen <==> HasName(order, name)
    {
      order, seen := CollectRow(order, seen, rows[r].children, code);
      assert rows[..r + 1][..r] == rows[..r];
    }
    assert rows[..|rows|] == rows;
  }

  method CollectRow(order: seq<Head>, seen: set<GoBytes>, children: seq<Node>, code: UirType -> byte)
    returns (order': seq<Head>, seen': set<GoBytes>)
    requires NilNode !in children && forall name :: name in seen <==> HasName(order, name)
    ensures order' == WithChildren(order, children, code)
    ensures forall name :: name in seen' <==> HasName(order', name)
  {
    order', seen' := order, seen;
    for i := 0 to |children|
      invariant order' == WithChildren(order, children[..i], code)
      invariant forall name :: name in seen' <==> HasName(order', name)
    {
      var c := children[i];
      assert children[..i + 1][..i] == children[..i];
      if c.key !in seen' {
        HasNameGrows(order', Head(c.key, code(c.typ)));
        order', seen' := order' + [Head(c.key, code(c.typ))], seen' + {c.key};
      }
    }
    assert children[..|children|] == children;
  }

  lemma HasNameGrows(heads: seq<Head>, h: Head)
    ensures forall name :: HasName(heads + [h], name) <==> HasName(heads, name) || name == h.name
  {
    forall name ensures HasName(heads + [h], name) <==> HasName(heads, name) || name == h.name {
      if HasName(heads, name) {
        var i :| 0 <= i < |heads| && heads[i].name == name;
        assert (heads + [h])[i].name == name;
      }
      assert (heads + [h])[|heads|] == h;
    }
  }

  method BuildColumns(rows: seq<Node>, code: UirType -> byte) returns (cols: seq<Column>)
    requires NoNil(rows)
    ensures cols == ColumnsOf(rows, code)
  {
    var order := CollectHeads(rows, code);
    cols := [];
    for i := 0 to |order|
      invariant |cols| == i && forall k | 0 <= k < i :: cols[k] == ColumnFor(order[k], rows)
    {
      cols := cols + [ColumnFor(order[i], rows)];
    }
  }

  // ---------- records made of columns ----------

  // The fields of record r: one per column that reaches that far.
  function FieldsAt(cols: seq<Column>, r: nat, typ: byte -> UirType): seq<Node> {
    if cols == [] then []
    else
      var field := if r < |cols[0].values| then [NewNode(typ(cols[0].code), cols[0].name, cols[0].values[r])] else [];
      field + FieldsAt(cols[1..], r, typ)
  }

  function MapNode(key: GoBytes, children: seq<Node>): Node {
    var empty := NewNode(TypeMap, key, NoValue);
    empty.(children := children)
  }

  function RowsFrom(cols: seq<Column>, n: nat, typ: byte -> UirType): (rows: seq<Node>)
    ensures |rows| == n
  {
    seq(n, r requires 0 <= r < n => MapNode([], FieldsAt(cols, r, typ)))
  }

  method BuildRow(cols: seq<Column>, r: nat, typ: byte -> UirType, key: GoBytes) returns (row: Node)
    ensures row == MapNode(key, FieldsAt(cols, r, typ))
  {
    var children: seq<Node> := [];
    assert cols[0..] == cols;
    for i := 0 to |cols|
      invariant children + FieldsAt(cols[i..], r, typ) == FieldsAt(cols, r, typ)
    {
      assert cols[i..][1..] == cols[i + 1..];
      ghost var more := FieldsAt(cols[i + 1..], r, typ);
      if r < |cols[i].values| {
        var field := NewNode(typ(cols[i].code), cols[i].name, cols[i].values[r]);
        Rejoin(children, [field], more);
        children := children + [field];
      } else {
        Rejoin(children, [], more);
        assert children + [] == children;
      }
    }
    assert children + [] == children;
    row := MapNode(key, children);
  }

  method BuildRows(cols: seq<Column>, n: nat, typ: byte -> UirType) returns (rows: seq<Node>)
    ensures rows == RowsFrom(cols, n, typ)
  {
    rows := [];
    for r := 0 to n
      invariant |rows| == r && forall k | 0 <= k < r :: rows[k] == RowsFrom(cols, n, typ)[k]
    {
      var row := BuildRow(cols, r, typ, []);
      rows := rows + [row];
    }
  }

  // ---------- records that all have the same keys ----------

  ghost predicate HasKey(row: Node, key: GoBytes) {
    row.Node? && exists i :: 0 <= i < |row.children| && KeyOf(row.children[i]) == key
  }

  ghost predicate SameKeys(rows: seq<Node>) {
    forall r, key | 0 <= r < |rows| :: HasKey(rows[r], key) <==> HasKey(rows[0], key)
  }

  function Keys(children: seq<Node>, code: UirType -> byte): (heads: seq<Head>)
    ensures |heads| == |children|
  {
    seq(|children|, i requires 0 <= i < |children| =>
      Head(KeyOf(children[i]), if children[i].Node? then code(children[i].typ) else 0))
  }

  lemma {:induction false} FirstRowHeads(children: seq<Node>, code: UirType -> byte)
    requires NilNode !in children && DistinctNodeKeys(children)
    ensures WithChildren([], children, code) == Keys(children, code)
  {
    if children == [] {
      assert Keys([], code) == [];
    } else {
      var front, c := children[..|children| - 1], children[|children| - 1];
      FirstRowHeads(front, code);
      assert Keys(children, code) == Keys(front, code) + [Head(c.key, code(c.typ))];
      assert forall i | 0 <= i < |front| :: Keys(front, code)[i].name == KeyOf(children[i]) != c.key;
    }
  }

  lemma {:induction false} NothingNew(heads: seq<Head>, children: seq<Node>, code: UirType -> byte)
    requires forall i | 0 <= i < |children| && children[i].Node? :: HasName(heads, children[i].key)
    ensures WithChildren(heads, children, code) == heads
  {
    if children != [] {
      NothingNew(heads, children[..|children| - 1], code);
    }
  }

  // With the same keys in every record, in any order, the columns are the fields of the first one.
  lemma {:induction false} HeadsAreFirstRow(rows: seq<Node>, n: nat, code: UirType -> byte)
    requires 0 < n <= |rows| && NoNil(rows) && SameKeys(rows) && DistinctNodeKeys(rows[0].children)
    ensures HeadsOf(rows[..n], code) == Keys(rows[0].children, code)
    decreases n
  {
    assert rows[..n][..n - 1] == rows[..n - 1];
    if n == 1 {
      FirstRowHeads(rows[0].children, code);
    } else {
      HeadsAreFirstRow(rows, n - 1, code);
      KeysAreKnown(rows, n - 1, code);
      NothingNew(Keys(rows[0].children, code), rows[n - 1].children, code);
    }
  }

  lemma KeysAreKnown(rows: seq<Node>, r: nat, code: UirType -> byte)
    requires r < |rows| && NoNil(rows) && SameKeys(rows)
    ensures forall i | 0 <= i < |rows[r].children| :: HasName(Keys(rows[0].children, code), rows[r].children[i].key)
  {
    var heads := Keys(rows[0].children, code);
    forall i | 0 <= i < |rows[r].children| ensures HasName(heads, rows[r].children[i].key) {
      var key := rows[r].children[i].key;
      assert HasKey(rows[r], key);
      assert HasKey(rows[0], key);
      var j :| 0 <= j < |rows[0].children| && KeyOf(rows[0].children[j]) == key;
      assert heads[j].name == key;
    }
  }
}
