/** Flat Protobuf messages driven by a schema: which fields are written and what is read back. */
module ProtoMessages {
  import opened ByteStrings
  import opened Conversions
  import opened Decimals
  import opened Uir
  import opened Varints
  import opened ProtoFields

  // ---------- the two indexes; the last of several entries wins ----------

  // Where each key of the record stands.
  function IndexOf(children: seq<Field>): (m: map<GoBytes, nat>)
    ensures forall k | k in m :: m[k] < |children|
  {
    if children == [] then map[]
    else
      var last := |children| - 1;
      IndexOf(children[..last])[children[last].key := last]
  }

  function TagOf(schema: seq<Field>, i: nat): uint64
    requires i < |schema|
  {
    ProtoTag(schema[i], Wrap(i + 1))
  }

  function FieldsByTag(schema: seq<Field>): map<uint64, Field> {
    if schema == [] then map[]
    else
      var last := |schema| - 1;
      var m, t := FieldsByTag(schema[..last]), TagOf(schema, last);
      if t == 0 then m else m[t := schema[last]]
  }

  // ---------- writing ----------

  // The position of a field's value, found by name or else by number.
  function Position(index: map<GoBytes, nat>, field: Field): Option<nat> {
    if field.key in index then Some(index[field.key])
    else if field.protoNumber != [] && |field.protoNumber| < TWO_64 && field.protoNumber in index
    then Some(index[field.protoNumber])
    else None
  }

  // The last of the children with a key.
  ghost predicate IsLast(children: seq<Field>, key: Bytes, p: nat) {
    p < |children| && children[p].key == key && forall q | p < q < |children| :: children[q].key != key
  }

  ghost predicate HasNone(children: seq<Field>, key: Bytes) {
    forall q | 0 <= q < |children| :: children[q].key != key
  }

  lemma {:induction false} IndexIsLast(children: seq<Field>, key: GoBytes)
    ensures key !in IndexOf(children) <==> HasNone(children, key)
    ensures key in IndexOf(children) ==> IsLast(children, key, IndexOf(children)[key])
  {
    if children != [] {
      var front := children[..|children| - 1];
      IndexIsLast(front, key);
      assert forall q | 0 <= q < |front| :: children[q] == front[q];
    }
  }

  // A field takes the last child of its name, or else the last one that is named by its number.
  ghost predicate Takes(children: seq<Field>, field: Field, p: nat) {
    || IsLast(children, field.key, p)
    || (HasNone(children, field.key) && field.protoNumber != [] && IsLast(children, field.protoNumber, p))
  }

  lemma PositionIff(children: seq<Field>, field: Field, p: nat)
    ensures Position(IndexOf(children), field) == Some(p) <==> Takes(children, field, p)
  {
    IndexIsLast(children, field.key);
    if |field.protoNumber| < TWO_64 {
      IndexIsLast(children, field.protoNumber);
    }
  }

  predicate IsWritten(children: seq<Field>, index: map<GoBytes, nat>, field: Field) {
    var p := Position(index, field);
    p.Some? && p.value < |children| && children[p.value].presence != Missing && children[p.value].typ != TypeNull
  }

  // The value that a field takes is written unless it is missing or null.
  lemma WrittenIff(children: seq<Field>, field: Field)
    ensures IsWritten(children, IndexOf(children), field) <==>
              exists p: nat :: Takes(children, field, p) && children[p].presence != Missing && children[p].typ != TypeNull
  {
    var index := IndexOf(children);
    if IsWritten(children, index, field) {
      PositionIff(children, field, Position(index, field).value);
    }
    forall p: nat | Takes(children, field, p) ensures Position(index, field) == Some(p) {
      PositionIff(children, field, p);
    }
  }

  // The annotations a value takes over from its schema field.
  function WithMeta(n: Field, field: Field): Field {
    n.(protoType := if n.protoType.NoProtoType? then field.protoType else n.protoType,
       protoNumber := if n.protoNumber == [] then field.protoNumber else n.protoNumber)
  }

  function Join(b: Option<Bytes>, more: Option<Bytes>): Option<Bytes> {
    if b.None? || more.None? then None else Some(b.value + more.value)
  }

  // The fields of the schema from number i on; taking over annotations changes the record on the way.
  function EncodeFrom(lib: Library, children: seq<Field>, index: map<GoBytes, nat>, schema: seq<Field>, i: nat): Option<Bytes>
    requires i <= |schema|
    decreases |schema| - i
  {
    if i == |schema| then Some([])
    else if !IsWritten(children, index, schema[i]) then EncodeFrom(lib, children, index, schema, i + 1)
    else
      var p := Position(index, schema[i]).value;
      var child := WithMeta(children[p], schema[i]);
      Join(EncodeField(lib, TagOf(schema, i), child), EncodeFrom(lib, children[p := child], index, schema, i + 1))
  }

  // Without a schema every value is written, under its own number or its position.
  function EncodeOwn(lib: Library, children: seq<Field>, i: nat): Option<Bytes>
    requires i <= |children|
    decreases |children| - i
  {
    if i == |children| then Some([])
    else Join(EncodeField(lib, TagOf(children, i), children[i]), EncodeOwn(lib, children, i + 1))
  }

  function EncodeMessage(lib: Library, children: seq<Field>, schema: seq<Field>): Option<Bytes> {
    if schema != [] then EncodeFrom(lib, children, IndexOf(children), schema, 0) else EncodeOwn(lib, children, 0)
  }

  // ---------- messages that are never finished ----------

  // The same with a given number of calls for each field.
  function EncodeFromIn(lib: Library, children: seq<Field>, index: map<GoBytes, nat>, schema: seq<Field>, i: nat, calls: nat):
    Option<Bytes>
    requires i <= |schema|
    decreases |schema| - i
  {
    if i == |schema| then Some([])
    else if !IsWritten(children, index, schema[i]) then EncodeFromIn(lib, children, index, schema, i + 1, calls)
    else
      var p := Position(index, schema[i]).value;
      var child := WithMeta(children[p], schema[i]);
      Join(EncodeFieldIn(lib, TagOf(schema, i), child, calls), EncodeFromIn(lib, children[p := child], index, schema, i + 1, calls))
  }

  function EncodeOwnIn(lib: Library, children: seq<Field>, i: nat, calls: nat): Option<Bytes>
    requires i <= |children|
    decreases |children| - i
  {
    if i == |children| then Some([])
    else Join(EncodeFieldIn(lib, TagOf(children, i), children[i], calls), EncodeOwnIn(lib, children, i + 1, calls))
  }

  function EncodeMessageIn(lib: Library, children: seq<Field>, schema: seq<Field>, calls: nat): Option<Bytes> {
    if schema != [] then EncodeFromIn(lib, children, IndexOf(children), schema, 0, calls)
    else EncodeOwnIn(lib, children, 0, calls)
  }

  // Some value, with the annotations it has taken over when its turn comes, makes the source call itself.
  predicate SomeCallsItself(children: seq<Field>, index: map<GoBytes, nat>, schema: seq<Field>, i: nat)
    requires i <= |schema|
    decreases |schema| - i
  {
    i < |schema| &&
    if !IsWritten(children, index, schema[i]) then SomeCallsItself(children, index, schema, i + 1)
    else
      var p := Position(index, schema[i]).value;
      var child := WithMeta(children[p], schema[i]);
      CallsItself(child) || SomeCallsItself(children[p := child], index, schema, i + 1)
  }

  // Field k is written, its value would make the source call itself with the annotations of this field, and it
  // has not got a proto type before: neither its own nor from an earlier field that takes it.
  predicate Endless(children: seq<Field>, index: map<GoBytes, nat>, schema: seq<Field>, from: nat, k: nat)
    requires from <= k < |schema|
  {
    && IsWritten(children, index, schema[k])
    && var n := children[Position(index, schema[k]).value];
       && CallsItself(WithMeta(n, schema[k]))
       && (n.protoType.NoProtoType? ==>
             forall j | from <= j < k && Position(index, schema[j]) == Position(index, schema[k]) :: schema[j].protoType.NoProtoType?)
  }

  predicate SomeEndless(children: seq<Field>, index: map<GoBytes, nat>, schema: seq<Field>, from: nat) {
    exists k :: from <= k < |schema| && Endless(children, index, schema, from, k)
  }

  predicate NeverFinished(children: seq<Field>, schema: seq<Field>) {
    if schema != [] then SomeEndless(children, IndexOf(children), schema, 0)
    else exists i :: 0 <= i < |children| && CallsItself(children[i])
  }

  // The encoder's walk meets such a value exactly if there is one in the record it starts from.
  lemma {:induction false} WalkMeetsEndless(children: seq<Field>, index: map<GoBytes, nat>, schema: seq<Field>, i: nat)
    requires i <= |schema|
    ensures SomeCallsItself(children, index, schema, i) <==> SomeEndless(children, index, schema, i)
    decreases |schema| - i
  {
    if i < |schema| {
      if !IsWritten(children, index, schema[i]) {
        WalkMeetsEndless(children, index, schema, i + 1);
        EndlessBehindSkipped(children, index, schema, i);
      } else {
        var p := Position(index, schema[i]).value;
        var child := WithMeta(children[p], schema[i]);
        WalkMeetsEndless(children[p := child], index, schema, i + 1);
        EndlessBehindWritten(children, index, schema, i, p, child);
      }
    }
  }

  lemma EndlessBehindSkipped(children: seq<Field>, index: map<GoBytes, nat>, schema: seq<Field>, i: nat)
    requires i < |schema| && !IsWritten(children, index, schema[i])
    ensures SomeEndless(children, index, schema, i) <==> SomeEndless(children, index, schema, i + 1)
  {
    if SomeEndless(children, index, schema, i) {
      var k :| i <= k < |schema| && Endless(children, index, schema, i, k);
      SkippedMakesNoOdds(children, index, schema, i, k);
    }
    if SomeEndless(children, index, schema, i + 1) {
      var k :| i + 1 <= k < |schema| && Endless(children, index, schema, i + 1, k);
      SkippedMakesNoOdds(children, index, schema, i, k);
    }
  }

  lemma SkippedMakesNoOdds(children: seq<Field>, index: map<GoBytes, nat>, schema: seq<Field>, i: nat, k: nat)
    requires i <= k < |schema| && !IsWritten(children, index, schema[i]) && IsWritten(children, index, schema[k])
    ensures k > i && (Endless(children, index, schema, i, k) <==> Endless(children, index, schema, i + 1, k))
  {}

  lemma EndlessBehindWritten(children: seq<Field>, index: map<GoBytes, nat>, schema: seq<Field>, i: nat, p: nat, child: Field)
    requires i < |schema| && IsWritten(children, index, schema[i])
    requires p == Position(index, schema[i]).value && child == WithMeta(children[p], schema[i])
    ensures SomeEndless(children, index, schema, i) <==> CallsItself(child) || SomeEndless(children[p := child], index, schema, i + 1)
  {
    var after := children[p := child];
    if CallsItself(child) {
      assert Endless(children, index, schema, i, i);
    } else {
      if SomeEndless(children, index, schema, i) {
        var k :| i <= k < |schema| && Endless(children, index, schema, i, k);
        EndlessStays(children, index, schema, i, p, child, k);
      }
      if SomeEndless(after, index, schema, i + 1) {
        var k :| i + 1 <= k < |schema| && Endless(after, index, schema, i + 1, k);
        EndlessStays(children, index, schema, i, p, child, k);
      }
    }
  }

  lemma EndlessStays(children: seq<Field>, index: map<GoBytes, nat>, schema: seq<Field>, i: nat, p: nat, child: Field, k: nat)
    requires i < k < |schema| && IsWritten(children, index, schema[i]) && !CallsItself(child)
    requires p == Position(index, schema[i]).value && child == WithMeta(children[p], schema[i])
    ensures Endless(children, index, schema, i, k) <==> Endless(children[p := child], index, schema, i + 1, k)
  {
    assert IsWritten(children[p := child], index, schema[k]) <==> IsWritten(children, index, schema[k]);
  }

  lemma {:induction false} FromRunsOut(lib: Library, children: seq<Field>, index: map<GoBytes, nat>, schema: seq<Field>,
                                       i: nat, calls: nat)
    requires i <= |schema| && calls > 0
    ensures EncodeFromIn(lib, children, index, schema, i, calls) == EncodeFrom(lib, children, index, schema, i)
    ensures EncodeFrom(lib, children, index, schema, i).None? <==> SomeCallsItself(children, index, schema, i)
    decreases |schema| - i
  {
    if i < |schema| {
      if !IsWritten(children, index, schema[i]) {
        FromRunsOut(lib, children, index, schema, i + 1, calls);
      } else {
        var p := Position(index, schema[i]).value;
        var child := WithMeta(children[p], schema[i]);
        MoreCallsDoNotHelp(lib, TagOf(schema, i), child, calls);
        FromRunsOut(lib, children[p := child], index, schema, i + 1, calls);
      }
    }
  }

  lemma {:induction false} OwnRunsOut(lib: Library, children: seq<Field>, i: nat, calls: nat)
    requires i <= |children| && calls > 0
    ensures EncodeOwnIn(lib, children, i, calls) == EncodeOwn(lib, children, i)
    ensures EncodeOwn(lib, children, i).None? <==> exists k :: i <= k < |children| && CallsItself(children[k])
    decreases |children| - i
  {
    if i < |children| {
      MoreCallsDoNotHelp(lib, TagOf(children, i), children[i], calls);
      OwnRunsOut(lib, children, i + 1, calls);
    }
  }

  lemma MessageRunsOut(lib: Library, children: seq<Field>, schema: seq<Field>, calls: nat)
    requires calls > 0
    ensures EncodeMessageIn(lib, children, schema, calls) == EncodeMessage(lib, children, schema)
    ensures EncodeMessage(lib, children, schema).None? <==> NeverFinished(children, schema)
  {
    if schema != [] {
      FromRunsOut(lib, children, IndexOf(children), schema, 0, calls);
      WalkMeetsEndless(children, IndexOf(children), schema, 0);
    } else {
      OwnRunsOut(lib, children, 0, calls);
    }
  }

  // Main result: a message is never finished exactly if one of the values written makes the source call itself.
  lemma MessageRunsOutIff(lib: Library, children: seq<Field>, schema: seq<Field>)
    ensures (forall calls | calls > 0 :: EncodeMessageIn(lib, children, schema, calls).None?) <==> NeverFinished(children, schema)
  {
    MessageRunsOut(lib, children, schema, 1);
    forall calls: nat | calls > 0 ensures EncodeMessageIn(lib, children, schema, calls) == EncodeMessage(lib, children, schema) {
      MessageRunsOut(lib, children, schema, calls);
    }
  }

  // A float node with the proto type int32, on its own or under a schema that says so.
  lemma FloatAsInt32RunsOut(lib: Library, key: GoBytes, tag: uint64, bits: uint32, calls: nat)
    requires calls > 0
    ensures var n := Field(key, TypeFloat32, Float32(bits), Present, PInt32, []);
            && EncodeFieldIn(lib, tag, n, calls).None?
            && EncodeMessageIn(lib, [n], [], calls).None?
            && EncodeMessageIn(lib, [n.(protoType := NoProtoType)], [n], calls).None?
  {
    var n := Field(key, TypeFloat32, Float32(bits), Present, PInt32, []);
    var bare := n.(protoType := NoProtoType);
    MoreCallsDoNotHelp(lib, tag, n, calls);
    MessageRunsOut(lib, [n], [], calls);
    assert CallsItself([n][0]);
    MessageRunsOut(lib, [bare], [n], calls);
    assert [bare][..0] == [] && IndexOf([bare]) == map[key := 0];
    assert Endless([bare], IndexOf([bare]), [n], 0, 0);
  }

  // ---------- reading ----------

  function ParseMessage(lib: Library, byTag: map<uint64, Field>, s: Bytes): Option<seq<Field>>
    decreases |s|
  {
    if s == [] then Some([])
    else
      var r := ReadField(lib, byTag, s);
      if r.NoField? then None else Prefixed([r.field], ParseMessage(lib, byTag, r.rest))
  }

  // ---------- the round trip ----------

  // Field numbers that tell fields apart and fit a field key.
  ghost predicate GoodTags(schema: seq<Field>) {
    && (forall i | 0 <= i < |schema| :: 0 < TagOf(schema, i) < MAX_TAG)
    && (forall i, j | 0 <= i < j < |schema| :: TagOf(schema, i) != TagOf(schema, j))
  }

  // Every value that is written has the type its field asks for. One that is written for two fields, because
  // it answers to the name of one and to the number of the other, suits both.
  ghost predicate GoodRecord(children: seq<Field>, index: map<GoBytes, nat>, schema: seq<Field>, from: nat) {
    && (forall i | from <= i < |schema| && IsWritten(children, index, schema[i]) ::
          WellTyped(schema[i], WithMeta(children[Position(index, schema[i]).value], schema[i])))
    && (forall i, j | from <= i < j < |schema| && IsWritten(children, index, schema[i])
                      && Position(index, schema[j]) == Position(index, schema[i]) ::
          schema[j].protoType == schema[i].protoType)
  }

  // The fields read are exactly the written ones, in schema order, with the record's types and values.
  ghost predicate Restored(list: seq<Field>, children: seq<Field>, index: map<GoBytes, nat>, schema: seq<Field>, i: nat)
    requires i <= |schema|
    decreases |schema| - i
  {
    if i == |schema| then list == []
    else if !IsWritten(children, index, schema[i]) then Restored(list, children, index, schema, i + 1)
    else
      && list != []
      && (var n := children[Position(index, schema[i]).value];
          list[0].key == schema[i].key && list[0].typ == n.typ && list[0].value == n.value)
      && Restored(list[1..], children, index, schema, i + 1)
  }

  lemma {:induction false} TagsAreFound(schema: seq<Field>, k: nat, i: nat)
    requires i < k <= |schema| && GoodTags(schema)
    ensures TagOf(schema, i) in FieldsByTag(schema[..k]) && FieldsByTag(schema[..k])[TagOf(schema, i)] == schema[i]
    decreases k
  {
    var front := schema[..k];
    assert front[..k - 1] == schema[..k - 1] && front[k - 1] == schema[k - 1];
    assert TagOf(front, k - 1) == TagOf(schema, k - 1);
    if i < k - 1 {
      TagsAreFound(schema, k - 1, i);
    }
  }

  lemma TagIsFound(schema: seq<Field>, i: nat)
    requires i < |schema| && GoodTags(schema)
    ensures TagOf(schema, i) in FieldsByTag(schema) && FieldsByTag(schema)[TagOf(schema, i)] == schema[i]
  {
    assert schema[..|schema|] == schema;
    TagsAreFound(schema, |schema|, i);
  }

  // The annotations that a value takes over suit the fields that use it later.
  lemma RecordStaysGood(children: seq<Field>, index: map<GoBytes, nat>, schema: seq<Field>, i: nat, p: nat, child: Field)
    requires i < |schema| && GoodRecord(children, index, schema, i) && IsWritten(children, index, schema[i])
    requires p == Position(index, schema[i]).value && child == WithMeta(children[p], schema[i])
    ensures GoodRecord(children[p := child], index, schema, i + 1)
  {
    var after := children[p := child];
    forall j | i + 1 <= j < |schema|
      ensures IsWritten(after, index, schema[j]) == IsWritten(children, index, schema[j])
      ensures IsWritten(after, index, schema[j]) ==> WellTyped(schema[j], WithMeta(after[Position(index, schema[j]).value], schema[j]))
    {
      if IsWritten(children, index, schema[j]) {
        StaysTyped(children, index, schema, i, j, child);
      }
    }
  }

  lemma StaysTyped(children: seq<Field>, index: map<GoBytes, nat>, schema: seq<Field>, i: nat, j: nat, child: Field)
    requires i < j < |schema| && GoodRecord(children, index, schema, i)
    requires IsWritten(children, index, schema[i]) && IsWritten(children, index, schema[j])
    requires child == WithMeta(children[Position(index, schema[i]).value], schema[i])
    ensures var after := children[Position(index, schema[i]).value := child];
            WellTyped(schema[j], WithMeta(after[Position(index, schema[j]).value], schema[j]))
  {
    assert WellTyped(schema[i], child);
    assert WellTyped(schema[j], WithMeta(children[Position(index, schema[j]).value], schema[j]));
    if Position(index, schema[j]) == Position(index, schema[i]) {
      assert schema[j].protoType == schema[i].protoType;
    }
  }

  // Taking over annotations changes neither type nor value.
  lemma {:induction false} RestoredEitherWay(list: seq<Field>, children: seq<Field>, index: map<GoBytes, nat>, schema: seq<Field>,
                                             i: nat, p: nat, child: Field, field: Field)
    requires i <= |schema| && p < |children| && child == WithMeta(children[p], field)
    ensures Restored(list, children[p := child], index, schema, i) == Restored(list, children, index, schema, i)
    decreases |schema| - i
  {
    if i < |schema| {
      RestoredEitherWay(list, children, index, schema, i + 1, p, child, field);
      if list != [] {
        RestoredEitherWay(list[1..], children, index, schema, i + 1, p, child, field);
      }
    }
  }

  // The fields from i on are written, and what is written parses to them.
  ghost predicate RoundTrips(list: seq<Field>, lib: Library, byTag: map<uint64, Field>, children: seq<Field>,
                             index: map<GoBytes, nat>, schema: seq<Field>, i: nat)
    requires i <= |schema|
  {
    var bytes := EncodeFrom(lib, children, index, schema, i);
    bytes.Some? && ParseMessage(lib, byTag, bytes.value) == Some(list) && Restored(list, children, index, schema, i)
  }

  // Main result: the encoding of a well-typed flat record parses to exactly its present fields.
  lemma {:induction false} FieldsRoundTrip(lib: Library, byTag: map<uint64, Field>, children: seq<Field>,
                                           index: map<GoBytes, nat>, schema: seq<Field>, i: nat)
    returns (list: seq<Field>)
    requires i <= |schema| && GoodTags(schema) && GoodRecord(children, index, schema, i) && byTag == FieldsByTag(schema)
    ensures RoundTrips(list, lib, byTag, children, index, schema, i)
    decreases |schema| - i
  {
    if i == |schema| {
      list := [];
    } else if !IsWritten(children, index, schema[i]) {
      list := FieldsRoundTrip(lib, byTag, children, index, schema, i + 1);
    } else {
      var p := Position(index, schema[i]).value;
      var child := WithMeta(children[p], schema[i]);
      RecordStaysGood(children, index, schema, i, p, child);
      var more := FieldsRoundTrip(lib, byTag, children[p := child], index, schema, i + 1);
      list := WrittenInFront(lib, byTag, children, index, schema, i, p, child, more);
    }
  }

  lemma WrittenInFront(lib: Library, byTag: map<uint64, Field>, children: seq<Field>, index: map<GoBytes, nat>,
                       schema: seq<Field>, i: nat, p: nat, child: Field, more: seq<Field>)
    returns (list: seq<Field>)
    requires i < |schema| && GoodTags(schema) && GoodRecord(children, index, schema, i) && byTag == FieldsByTag(schema)
    requires IsWritten(children, index, schema[i])
    requires p == Position(index, schema[i]).value && child == WithMeta(children[p], schema[i])
    requires RoundTrips(more, lib, byTag, children[p := child], index, schema, i + 1)
    ensures RoundTrips(list, lib, byTag, children, index, schema, i)
  {
    RestoredEitherWay(more, children, index, schema, i + 1, p, child, schema[i]);
    var first := FirstFieldReads(lib, byTag, schema, i, child,
                                 EncodeFrom(lib, children[p := child], index, schema, i + 1).value);
    list := [first] + more;
    RestoredInFront(list, first, more, children, index, schema, i);
  }

  lemma RestoredInFront(list: seq<Field>, first: Field, more: seq<Field>, children: seq<Field>, index: map<GoBytes, nat>,
                        schema: seq<Field>, i: nat)
    requires i < |schema| && IsWritten(children, index, schema[i]) && list == [first] + more
    requires Restored(more, children, index, schema, i + 1)
    requires var n := children[Position(index, schema[i]).value];
             first.key == schema[i].key && first.typ == n.typ && first.value == n.value
    ensures Restored(list, children, index, schema, i)
  {
    assert list[1..] == more;
  }

  lemma FirstFieldReads(lib: Library, byTag: map<uint64, Field>, schema: seq<Field>, i: nat, child: Field, rest: Bytes)
    returns (first: Field)
    requires i < |schema| && GoodTags(schema) && byTag == FieldsByTag(schema) && WellTyped(schema[i], child)
    ensures var b := EncodeField(lib, TagOf(schema, i), child);
            b.Some? && ParseMessage(lib, byTag, b.value + rest) == Prefixed([first], ParseMessage(lib, byTag, rest))
    ensures Restores(first, schema[i], child)
  {
    TagIsFound(schema, i);
    var tag := TagOf(schema, i);
    FieldComesBack(lib, byTag, tag, child, rest);
    first := ReadField(lib, byTag, EncodeField(lib, tag, child).value + rest).field;
  }

  lemma MessageRoundTrip(lib: Library, children: seq<Field>, schema: seq<Field>) returns (list: seq<Field>)
    requires schema != [] && GoodTags(schema) && GoodRecord(children, IndexOf(children), schema, 0)
    ensures EncodeMessage(lib, children, schema).Some?
    ensures ParseMessage(lib, FieldsByTag(schema), EncodeMessage(lib, children, schema).value) == Some(list)
    ensures Restored(list, children, IndexOf(children), schema, 0)
  {
    list := FieldsRoundTrip(lib, FieldsByTag(schema), children, IndexOf(children), schema, 0);
  }

  // A value under the key "7", where one field is named "7" and another has the number 7, comes back for both.
  lemma WrittenForBoth(lib: Library, v: int64) returns (list: seq<Field>)
    ensures var children := [Field([55], TypeInt64, Int64(v), Present, PInt64, [])];
            var schema := [Field([55], TypeInt64, NoValue, Present, PInt64, [49]), Field([98], TypeInt64, NoValue, Present, PInt64, [55])];
            && EncodeMessage(lib, children, schema).Some?
            && ParseMessage(lib, FieldsByTag(schema), EncodeMessage(lib, children, schema).value) == Some(list)
    ensures |list| == 2 && list[0].key == [55] && list[1].key == [98] && list[0].value == list[1].value == Int64(v)
  {
    var n := Field([55], TypeInt64, Int64(v), Present, PInt64, []);
    var f, g := Field([55], TypeInt64, NoValue, Present, PInt64, [49]), Field([98], TypeInt64, NoValue, Present, PInt64, [55]);
    var index := IndexOf([n]);
    assert [n][..0] == [] && index == map[[55] := 0];
    assert Position(index, f) == Some(0) && Position(index, g) == Some(0);
    TwoTags(f, g, [f, g]);
    TwoTyped(n, f, g, [n], index, [f, g]);
    list := MessageRoundTrip(lib, [n], [f, g]);
    TwoRestored(list, n, f, g, [n], index, [f, g]);
  }

  lemma TwoTags(f: Field, g: Field, schema: seq<Field>)
    requires schema == [f, g] && f.protoNumber == [49] && g.protoNumber == [55]
    ensures GoodTags(schema)
  {
    assert [49][1..] == [] && [55][1..] == [];
    assert ParseDigits([49], 0) == Some(1) && ParseDigits([55], 0) == Some(7);
    assert TagOf(schema, 0) == 1 && TagOf(schema, 1) == 7;
  }

  ghost predicate BothTake(n: Field, f: Field, g: Field, children: seq<Field>, index: map<GoBytes, nat>, schema: seq<Field>) {
    && children == [n] && schema == [f, g] && Position(index, f) == Some(0) && Position(index, g) == Some(0)
    && n.presence != Missing && n.typ != TypeNull
  }

  lemma TwoTyped(n: Field, f: Field, g: Field, children: seq<Field>, index: map<GoBytes, nat>, schema: seq<Field>)
    requires BothTake(n, f, g, children, index, schema) && f.protoType == g.protoType
    requires WellTyped(f, WithMeta(n, f)) && WellTyped(g, WithMeta(n, g))
    ensures GoodRecord(children, index, schema, 0)
  {}

  lemma TwoRestored(list: seq<Field>, n: Field, f: Field, g: Field, children: seq<Field>, index: map<GoBytes, nat>, schema: seq<Field>)
    requires BothTake(n, f, g, children, index, schema) && Restored(list, children, index, schema, 0)
    ensures |list| == 2 && list[0].key == f.key && list[1].key == g.key && list[0].value == list[1].value == n.value
  {
    assert Restored(list[1..], children, index, schema, 1);
    assert Restored(list[1..][1..], children, index, schema, 2);
  }
}
