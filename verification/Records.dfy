/** Records that all have the same keys and types, and what their columns give back. */
module Records {
  import opened ByteStrings
  import opened Columns
  import opened KeyOrder
  import opened PlainValues
  import opened Uir

  // A field whose type the format tells apart from all others.
  ghost predicate Supported(coding: Coding, c: Node) {
    c.Node? && coding.typ(coding.code(c.typ)) == c.typ && Fitting(coding.kind(coding.code(c.typ)), c.value)
  }

  // At least one record and field; in every record the same distinct keys, in any order, with the types
  // they have in the first one.
  ghost predicate Aligned(rows: seq<Node>) {
    && rows != [] && NoNil(rows) && rows[0].children != [] && SameKeys(rows)
    && (forall r | 0 <= r < |rows| :: DistinctNodeKeys(rows[r].children))
    && (forall r, i, j | 0 <= r < |rows| && 0 <= i < |rows[r].children| && 0 <= j < |rows[0].children| ::
          KeyOf(rows[r].children[i]) == KeyOf(rows[0].children[j]) ==> rows[r].children[i].typ == rows[0].children[j].typ)
  }

  ghost predicate AllSupported(coding: Coding, rows: seq<Node>)
    requires NoNil(rows)
  {
    forall r, i | 0 <= r < |rows| && 0 <= i < |rows[r].children| :: Supported(coding, rows[r].children[i])
  }

  ghost predicate Uniform(coding: Coding, rows: seq<Node>) {
    Aligned(rows) && AllSupported(coding, rows)
  }

  lemma {:induction false} FoundByKey(children: seq<Node>, i: nat)
    requires i < |children| && DistinctNodeKeys(children)
    ensures ChildByKey(children, KeyOf(children[i])) == Some(children[i])
  {
    if i > 0 {
      FoundByKey(children[1..], i - 1);
    }
  }

  // Field j of the first record has a counterpart in record r, and that is what the column holds.
  lemma CellOf(rows: seq<Node>, r: nat, j: nat) returns (i: nat)
    requires Aligned(rows) && r < |rows| && j < |rows[0].children|
    ensures i < |rows[r].children| && KeyOf(rows[r].children[i]) == KeyOf(rows[0].children[j])
    ensures Cell(rows[r], KeyOf(rows[0].children[j])) == rows[r].children[i].value
    ensures rows[r].children[i].typ == rows[0].children[j].typ
  {
    var key := KeyOf(rows[0].children[j]);
    assert HasKey(rows[0], key);
    assert HasKey(rows[r], key);
    i :| 0 <= i < |rows[r].children| && KeyOf(rows[r].children[i]) == key;
    FoundByKey(rows[r].children, i);
  }

  lemma AlignedColumns(coding: Coding, rows: seq<Node>)
    requires Aligned(rows)
    ensures var cols := ColumnsOf(rows, coding.code);
            |cols| == |rows[0].children|
            && forall j | 0 <= j < |cols| :: cols[j] == ColumnFor(Keys(rows[0].children, coding.code)[j], rows)
  {
    assert rows[..|rows|] == rows;
    HeadsAreFirstRow(rows, |rows|, coding.code);
  }

  ghost predicate AllFitting(coding: Coding, cols: seq<Column>) {
    forall i, k | 0 <= i < |cols| && 0 <= k < |cols[i].values| :: Fitting(coding.kind(cols[i].code), cols[i].values[k])
  }

  lemma UniformFits(coding: Coding, rows: seq<Node>)
    requires Uniform(coding, rows)
    ensures AllFitting(coding, ColumnsOf(rows, coding.code))
  {
    var cols := ColumnsOf(rows, coding.code);
    AlignedColumns(coding, rows);
    forall j, r | 0 <= j < |cols| && 0 <= r < |cols[j].values| ensures Fitting(coding.kind(cols[j].code), cols[j].values[r]) {
      var i := CellOf(rows, r, j);
      assert Supported(coding, rows[r].children[i]);
    }
  }

  // Field j of record r of the table read back.
  lemma {:induction false} TableField(coding: Coding, cols: seq<Column>, r: nat, j: nat)
    requires j < |cols| && forall k | 0 <= k < |cols| :: r < |cols[k].values|
    ensures |FieldsAt(cols, r, coding.typ)| == |cols|
    ensures FieldsAt(cols, r, coding.typ)[j] == NewNode(coding.typ(cols[j].code), cols[j].name, cols[j].values[r])
    decreases cols
  {
    if j > 0 {
      TableField(coding, cols[1..], r, j - 1);
    } else if |cols| > 1 {
      TableField(coding, cols[1..], r, 0);
    }
  }

  // A table that holds one record is that record, unless its only field is a record itself.
  lemma SingleRecord(key: GoBytes, fields: seq<Node>)
    requires forall i | 0 <= i < |fields| :: fields[i].Node? && fields[i].typ != TypeMap
    ensures RowsOf(MapNode(key, fields)) == [MapNode(key, fields)]
  {}

  lemma {:induction false} FieldsAreScalars(cols: seq<Column>, r: nat, typ: byte -> UirType)
    requires forall code :: typ(code) != TypeMap
    ensures forall i | 0 <= i < |FieldsAt(cols, r, typ)| :: FieldsAt(cols, r, typ)[i].Node? && FieldsAt(cols, r, typ)[i].typ != TypeMap
  {
    if cols != [] {
      FieldsAreScalars(cols[1..], r, typ);
    }
  }

  // A record read back has exactly the fields of the original: as many, and each with its type and value.
  ghost predicate SameRecord(back: Node, row: Node) {
    && back.Node? && row.Node? && |back.children| == |row.children|
    && forall i | 0 <= i < |row.children| :: row.children[i].Node? &&
         var c := ChildByKey(back.children, row.children[i].key);
         c.Some? && c.value.Node? && c.value.typ == row.children[i].typ && c.value.value == row.children[i].value
  }

  lemma {:induction false} KeySetSize(children: seq<Node>)
    requires DistinctNodeKeys(children)
    ensures |KeySet(children)| == |children|
  {
    if children == [] {
      assert KeySet(children) == {};
    } else {
      KeySetSize(children[1..]);
      assert KeySet(children) == {KeyOf(children[0])} + KeySet(children[1..]);
      forall c | c in children[1..] ensures KeyOf(c) != KeyOf(children[0]) {
        var k :| 0 <= k < |children[1..]| && children[1..][k] == c;
        assert children[k + 1] == c;
      }
    }
  }

  ghost function KeySet(children: seq<Node>): set<GoBytes> {
    set c | c in children :: KeyOf(c)
  }

  lemma SameNumberOfFields(rows: seq<Node>, r: nat)
    requires Aligned(rows) && r < |rows|
    ensures |rows[r].children| == |rows[0].children|
  {
    KeySetSize(rows[0].children);
    KeySetSize(rows[r].children);
    forall key ensures key in KeySet(rows[r].children) <==> key in KeySet(rows[0].children) {
      KeySetHasKey(rows[r], key);
      KeySetHasKey(rows[0], key);
      assert HasKey(rows[r], key) <==> HasKey(rows[0], key);
    }
    assert KeySet(rows[r].children) == KeySet(rows[0].children);
  }

  lemma KeySetHasKey(row: Node, key: GoBytes)
    requires row.Node?
    ensures key in KeySet(row.children) <==> HasKey(row, key)
  {
    if key in KeySet(row.children) {
      var c :| c in row.children && KeyOf(c) == key;
      var i :| 0 <= i < |row.children| && row.children[i] == c;
    }
  }

  // Columns that differ in their values only.
  ghost predicate Like(cols: seq<Column>, cols': seq<Column>) {
    && |cols| == |cols'|
    && forall j | 0 <= j < |cols| ::
         cols[j].name == cols'[j].name && cols[j].code == cols'[j].code && |cols[j].values| == |cols'[j].values|
  }

  lemma FieldKeys(coding: Coding, rows: seq<Node>, cols: seq<Column>, r: nat)
    requires Aligned(rows) && r < |rows| && Like(cols, ColumnsOf(rows, coding.code))
    ensures |FieldsAt(cols, r, coding.typ)| == |cols| == |rows[0].children|
    ensures forall j | 0 <= j < |cols| :: KeyOf(FieldsAt(cols, r, coding.typ)[j]) == KeyOf(rows[0].children[j])
    ensures DistinctNodeKeys(FieldsAt(cols, r, coding.typ))
  {
    AlignedColumns(coding, rows);
    TableField(coding, cols, r, 0);
    forall j | 0 <= j < |cols| ensures KeyOf(FieldsAt(cols, r, coding.typ)[j]) == KeyOf(rows[0].children[j]) {
      TableField(coding, cols, r, j);
    }
  }

  // Field i of record r belongs to one column j, and that is where its key leads to in the table read back.
  lemma FieldLeads(coding: Coding, rows: seq<Node>, cols: seq<Column>, r: nat, i: nat) returns (j: nat)
    requires Aligned(rows) && r < |rows| && i < |rows[r].children| && Like(cols, ColumnsOf(rows, coding.code))
    ensures rows[r].children[i].Node? && j < |cols| && r < |cols[j].values|
    ensures var c := rows[r].children[i];
            && ChildByKey(FieldsAt(cols, r, coding.typ), c.key) == Some(NewNode(coding.typ(cols[j].code), cols[j].name, cols[j].values[r]))
            && cols[j].code == coding.code(c.typ) && ColumnsOf(rows, coding.code)[j].values[r] == c.value
  {
    var c := rows[r].children[i];
    assert HasKey(rows[r], c.key);
    assert HasKey(rows[0], c.key);
    j :| 0 <= j < |rows[0].children| && KeyOf(rows[0].children[j]) == c.key;
    var i' := CellOf(rows, r, j);
    SameIndex(rows[r].children, i, i');
    AlignedColumns(coding, rows);
    FieldKeys(coding, rows, cols, r);
    TableField(coding, cols, r, j);
    FoundByKey(FieldsAt(cols, r, coding.typ), j);
  }

  lemma RecordComesBack(coding: Coding, rows: seq<Node>, cols: seq<Column>, r: nat, back: Node)
    requires Uniform(coding, rows) && r < |rows| && cols == ColumnsOf(rows, coding.code)
    requires back.Node? && back.children == FieldsAt(cols, r, coding.typ)
    ensures SameRecord(back, rows[r])
  {
    var row, fields := rows[r], FieldsAt(cols, r, coding.typ);
    SameNumberOfFields(rows, r);
    FieldKeys(coding, rows, cols, r);
    forall i | 0 <= i < |row.children|
      ensures row.children[i].Node? &&
              var c := ChildByKey(fields, row.children[i].key);
              c.Some? && c.value.Node? && c.value.typ == row.children[i].typ && c.value.value == row.children[i].value
    {
      assert Supported(coding, row.children[i]);
      var j := FieldLeads(coding, rows, cols, r, i);
    }
  }

  // A record that does come back holds only values of the types the format supports.
  lemma SurvivorIsSupported(coding: Coding, rows: seq<Node>, cols: seq<Column>, r: nat, back: Node)
    requires Aligned(rows) && r < |rows| && Like(cols, ColumnsOf(rows, coding.code)) && AllFitting(coding, cols)
    requires back.Node? && back.children == FieldsAt(cols, r, coding.typ) && SameRecord(back, rows[r])
    ensures forall i | 0 <= i < |rows[r].children| :: Supported(coding, rows[r].children[i])
  {
    forall i | 0 <= i < |rows[r].children| ensures Supported(coding, rows[r].children[i]) {
      var j := FieldLeads(coding, rows, cols, r, i);
      assert Fitting(coding.kind(cols[j].code), cols[j].values[r]);
    }
  }

  // The records come back from a file: as many, and each with its keys, types and values.
  ghost predicate Survive(parsed: Option<Node>, rows: seq<Node>) {
    && parsed.Some?
    && var back := RowsOf(parsed.value);
       |back| == |rows| && forall r | 0 <= r < |rows| :: SameRecord(back[r], rows[r])
  }

  lemma SameIndex(children: seq<Node>, i: nat, i': nat)
    requires i < |children| && i' < |children| && DistinctNodeKeys(children) && KeyOf(children[i]) == KeyOf(children[i'])
    ensures i == i'
  {}

  lemma {:induction false} FieldsAreFew(cols: seq<Column>, r: nat, typ: byte -> UirType)
    ensures |FieldsAt(cols, r, typ)| <= |cols|
  {
    if cols != [] {
      FieldsAreFew(cols[1..], r, typ);
    }
  }

  // A key that is found in the table is the name of a column.
  lemma {:induction false} NameIsRead(cols: seq<Column>, r: nat, key: GoBytes, typ: byte -> UirType)
    requires ChildByKey(FieldsAt(cols, r, typ), key).Some?
    ensures exists j :: 0 <= j < |cols| && cols[j].name == key
  {
    if r < |cols[0].values| && cols[0].name == key {
    } else {
      NameIsReadLater(cols, r, key, typ);
      NameIsRead(cols[1..], r, key, typ);
      var j :| 0 <= j < |cols[1..]| && cols[1..][j].name == key;
      assert cols[j + 1].name == key;
    }
  }

  lemma NameIsReadLater(cols: seq<Column>, r: nat, key: GoBytes, typ: byte -> UirType)
    requires ChildByKey(FieldsAt(cols, r, typ), key).Some? && !(r < |cols[0].values| && cols[0].name == key)
    ensures ChildByKey(FieldsAt(cols[1..], r, typ), key).Some?
  {
    var more := FieldsAt(cols[1..], r, typ);
    if r < |cols[0].values| {
      assert FieldsAt(cols, r, typ)[1..] == more;
    } else {
      assert FieldsAt(cols, r, typ) == more;
    }
  }

  // A key that comes back is no longer than the names that are read.
  lemma NameSurvives(read: seq<Column>, typ: byte -> UirType, back: Node, row: Node, j: nat)
    requires forall c | c in read :: |c.name| < 0x1_0000
    requires SameRecord(back, row) && back.children == FieldsAt(read, 0, typ) && row.Node? && j < |row.children|
    ensures |KeyOf(row.children[j])| < 0x1_0000
  {
    NameIsRead(read, 0, row.children[j].key, typ);
    var k :| 0 <= k < |read| && read[k].name == row.children[j].key;
    assert read[k] in read;
  }
}
