/** The order in which records list their fields never shows in the encoded bytes. */
module CborOrder {
  import opened ByteStrings
  import opened Utf8
  import opened Uir
  import opened KeyOrder
  import opened CborItems
  import opened CborNodes

  // b is a up to the order of the fields of its records, at any level, and up to metadata the
  // codec does not read.
  ghost predicate SameUpToOrder(a: Node, b: Node)
    decreases a, 1
  {
    if a.NilNode? || b.NilNode? then a == b
    else
      && a.typ == b.typ && a.key == b.key && a.value == b.value && a.presence == b.presence
      && if IsRecord(a) then exists s: seq<Node> :: multiset(s) == multiset(b.children) && Pairwise(a.children, s)
         else Pairwise(a.children, b.children)
  }

  ghost predicate Pairwise(xs: seq<Node>, ys: seq<Node>)
    decreases xs, 0
  {
    |xs| == |ys| && forall i | 0 <= i < |xs| :: SameUpToOrder(xs[i], ys[i])
  }

  // ---------- lists that agree element by element ----------

  lemma {:induction false} PairwisePresent(xs: seq<Node>, ys: seq<Node>)
    requires Pairwise(xs, ys)
    ensures Pairwise(PresentFields(xs), PresentFields(ys)) && (NilNode in xs <==> NilNode in ys)
  {
    if xs != [] {
      assert SameUpToOrder(xs[0], ys[0]);
      PairwisePresent(xs[1..], ys[1..]);
      assert xs == [xs[0]] + xs[1..] && ys == [ys[0]] + ys[1..];
    }
  }

  lemma SameKey(a: Node, b: Node)
    requires SameUpToOrder(a, b)
    ensures KeyOf(a) == KeyOf(b)
  {}

  lemma PairwiseKeys(xs: seq<Node>, ys: seq<Node>)
    requires Pairwise(xs, ys)
    ensures forall i | 0 <= i < |xs| :: KeyOf(xs[i]) == KeyOf(ys[i])
    ensures DistinctNodeKeys(xs) <==> DistinctNodeKeys(ys)
  {
    forall i | 0 <= i < |xs| ensures KeyOf(xs[i]) == KeyOf(ys[i]) { SameKey(xs[i], ys[i]); }
  }

  lemma PairwiseCons(x: Node, y: Node, xs: seq<Node>, ys: seq<Node>)
    requires SameUpToOrder(x, y) && Pairwise(xs, ys)
    ensures Pairwise([x] + xs, [y] + ys)
  {}

  lemma {:induction false} PairwiseInsert(x: Node, y: Node, xs: seq<Node>, ys: seq<Node>)
    requires SameUpToOrder(x, y) && Pairwise(xs, ys)
    ensures Pairwise(Insert(x, xs), Insert(y, ys))
  {
    SameKey(x, y);
    if xs != [] {
      assert SameUpToOrder(xs[0], ys[0]);
      SameKey(xs[0], ys[0]);
      if Less(KeyOf(xs[0]), KeyOf(x)) {
        PairwiseInsert(x, y, xs[1..], ys[1..]);
        PairwiseCons(xs[0], ys[0], Insert(x, xs[1..]), Insert(y, ys[1..]));
      } else {
        PairwiseCons(x, y, xs, ys);
      }
    }
  }

  lemma {:induction false} PairwiseSort(xs: seq<Node>, ys: seq<Node>)
    requires Pairwise(xs, ys)
    ensures Pairwise(SortByKey(xs), SortByKey(ys))
  {
    if xs != [] {
      assert SameUpToOrder(xs[0], ys[0]);
      PairwiseSort(xs[1..], ys[1..]);
      PairwiseInsert(xs[0], ys[0], SortByKey(xs[1..]), SortByKey(ys[1..]));
    }
  }

  // ---------- lists that are rearrangements of each other ----------

  lemma {:induction false} PresentCounts(xs: seq<Node>, x: Node)
    ensures multiset(PresentFields(xs))[x] == if x.Node? && x.presence != Missing then multiset(xs)[x] else 0
  {
    if xs != [] {
      assert xs == [xs[0]] + xs[1..];
      PresentCounts(xs[1..], x);
    }
  }

  lemma PresentReordered(xs: seq<Node>, ys: seq<Node>)
    requires multiset(xs) == multiset(ys)
    ensures multiset(PresentFields(xs)) == multiset(PresentFields(ys))
    ensures NilNode in xs <==> NilNode in ys
  {
    forall x ensures multiset(PresentFields(xs))[x] == multiset(PresentFields(ys))[x] {
      PresentCounts(xs, x);
      PresentCounts(ys, x);
    }
    assert NilNode in multiset(xs) <==> NilNode in multiset(ys);
  }

  // ---------- equal items ----------

  ghost predicate SameItem(a: Node, b: Node) {
    Encodable(a) == Encodable(b) && (Encodable(a) ==> ItemOf(a) == ItemOf(b))
  }

  lemma {:induction false} SameItems(a: Node, b: Node)
    requires SameUpToOrder(a, b)
    ensures SameItem(a, b)
    decreases Size(a), 0
  {
    if EncodesAsNull(a) {
    } else if IsRecord(a) {
      var s: seq<Node> :| multiset(s) == multiset(b.children) && Pairwise(a.children, s);
      RecordsAgree(a, b, s);
    } else if a.typ == TypeArray {
      ListsAgree(a.children, b.children);
      ArrayEncodes(a);
      ArrayEncodes(b);
    }
  }

  lemma {:induction false} RecordsAgree(a: Node, b: Node, s: seq<Node>)
    requires a.Node? && b.Node? && IsRecord(a) && IsRecord(b) && !EncodesAsNull(a) && !EncodesAsNull(b)
    requires multiset(s) == multiset(b.children) && Pairwise(a.children, s)
    ensures SameItem(a, b)
    decreases SizeAll(a.children), 2
  {
    var p, q, r := PresentFields(a.children), PresentFields(s), PresentFields(b.children);
    PairwisePresent(a.children, s);
    PresentReordered(s, b.children);
    PairwiseKeys(p, q);
    if DistinctNodeKeys(q) {
      DistinctIsOrderFree(q, r);
      SortIsOrderFree(q, r);
      PairwiseSort(p, q);
      SortedSize(a.children);
      FieldsAgree(SortByKey(p), SortByKey(q));
    } else if DistinctNodeKeys(r) {
      DistinctIsOrderFree(r, q);
    }
    RecordEncodes(a);
    RecordEncodes(b);
  }

  lemma {:induction false} ListsAgree(xs: seq<Node>, ys: seq<Node>)
    requires Pairwise(xs, ys)
    ensures AllEncodable(xs) == AllEncodable(ys)
    ensures AllEncodable(xs) ==> ItemsOf(xs) == ItemsOf(ys)
    decreases SizeAll(xs), 1
  {
    if xs != [] {
      assert SameUpToOrder(xs[0], ys[0]);
      SameItems(xs[0], ys[0]);
      ListsAgree(xs[1..], ys[1..]);
      AllSplits(xs);
      AllSplits(ys);
    }
  }

  lemma AllSplits(nodes: seq<Node>)
    requires nodes != []
    ensures AllEncodable(nodes) <==> Encodable(nodes[0]) && AllEncodable(nodes[1..])
  {
    assert forall i | 0 < i < |nodes| :: nodes[i] == nodes[1..][i - 1];
  }

  lemma {:induction false} FieldsAgree(xs: seq<Node>, ys: seq<Node>)
    requires Pairwise(xs, ys)
    ensures FieldsEncodable(xs) == FieldsEncodable(ys)
    ensures FieldsEncodable(xs) ==> EntriesOf(xs) == EntriesOf(ys)
    decreases SizeAll(xs), 1
  {
    if xs != [] {
      assert SameUpToOrder(xs[0], ys[0]);
      SameKey(xs[0], ys[0]);
      SameItems(xs[0], ys[0]);
      FieldsAgree(xs[1..], ys[1..]);
      FieldsSplit(xs);
      FieldsSplit(ys);
    }
  }

  lemma FieldsSplit(nodes: seq<Node>)
    requires nodes != []
    ensures FieldsEncodable(nodes) <==>
            ValidUtf8(KeyOf(nodes[0])) && Encodable(nodes[0]) && FieldsEncodable(nodes[1..])
  {
    assert forall i | 0 < i < |nodes| :: nodes[i] == nodes[1..][i - 1];
  }

  // Main result: permuting the fields of records at any level changes neither acceptance nor bytes.
  lemma EncodingIgnoresOrder(a: Node, b: Node)
    requires SameUpToOrder(a, b)
    ensures Encoded(a) == Encoded(b)
  {
    SameItems(a, b);
  }
}
