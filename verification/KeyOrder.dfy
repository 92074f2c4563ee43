/** Go's order on strings (raw bytes, left to right) and sorting nodes by key. */
module KeyOrder {
  import opened ByteStrings
  import opened Uir

  predicate Less(a: Bytes, b: Bytes)
    decreases |a|
  {
    if b == [] then false
    else if a == [] then true
    else if a[0] != b[0] then a[0] < b[0]
    else Less(a[1..], b[1..])
  }

  lemma {:induction false} LessTotal(a: Bytes, b: Bytes)
    ensures a == b || Less(a, b) || Less(b, a)
    ensures !(Less(a, b) && Less(b, a)) && !Less(a, a)
    decreases |a|
  {
    if a != [] && b != [] && a[0] == b[0] {
      LessTotal(a[1..], b[1..]);
      assert a == [a[0]] + a[1..] && b == [b[0]] + b[1..];
    }
    if a != [] {
      LessTotal(a[1..], a[1..]);
    }
  }

  lemma {:induction false} LessTransitive(a: Bytes, b: Bytes, c: Bytes)
    requires Less(a, b) && Less(b, c)
    ensures Less(a, c)
    decreases |a|
  {
    if a != [] && a[0] == b[0] == c[0] {
      LessTransitive(a[1..], b[1..], c[1..]);
    }
  }

  // The first place where two keys differ.
  predicate DifferAt(a: Bytes, b: Bytes, i: nat) {
    i < |a| && i < |b| && a[..i] == b[..i] && a[i] != b[i]
  }

  ghost predicate SmallerWhereTheyDiffer(a: Bytes, b: Bytes) {
    exists i: nat :: DifferAt(a, b, i) && a[i] < b[i]
  }

  // One key comes before another exactly if it is a proper prefix of it or has the smaller byte where they differ.
  lemma {:induction false} LessIff(a: Bytes, b: Bytes)
    ensures Less(a, b) <==> a < b || SmallerWhereTheyDiffer(a, b)
    decreases |a|
  {
    if a != [] && b != [] {
      if a[0] != b[0] {
        assert DifferAt(a, b, 0);
        forall i: nat | DifferAt(a, b, i) ensures i == 0 {
          if i > 0 {
            FirstAgrees(a, b, i);
          }
        }
      } else {
        var x, y := a[1..], b[1..];
        assert a == [a[0]] + x && b == [b[0]] + y;
        LessIff(x, y);
        SmallerBehind(a, b, x, y);
      }
    }
  }

  lemma SmallerBehind(a: Bytes, b: Bytes, x: Bytes, y: Bytes)
    requires a != [] && b != [] && a == [a[0]] + x && b == [a[0]] + y
    ensures SmallerWhereTheyDiffer(a, b) <==> SmallerWhereTheyDiffer(x, y)
  {
    if SmallerWhereTheyDiffer(x, y) {
      var i: nat :| DifferAt(x, y, i) && x[i] < y[i];
      assert a[..i + 1] == [a[0]] + x[..i] && b[..i + 1] == [a[0]] + y[..i];
      assert DifferAt(a, b, i + 1);
    }
    if SmallerWhereTheyDiffer(a, b) {
      var i: nat :| DifferAt(a, b, i) && a[i] < b[i];
      assert x[..i - 1] == a[..i][1..] && y[..i - 1] == b[..i][1..];
      assert DifferAt(x, y, i - 1);
    }
  }

  lemma FirstAgrees(a: Bytes, b: Bytes, i: nat)
    requires 0 < i <= |a| && i <= |b| && a[..i] == b[..i]
    ensures a[0] == b[0]
  {
    assert a[..i][0] == b[..i][0];
  }

  function KeyOf(n: Node): GoBytes {
    if n.Node? then n.key else []
  }

  // Insertion into a list sorted by key; ties keep the newcomer first.
  function Insert(n: Node, sorted: seq<Node>): (r: seq<Node>)
    ensures multiset(r) == multiset{n} + multiset(sorted)
    ensures |r| == |sorted| + 1
  {
    if sorted == [] || !Less(KeyOf(sorted[0]), KeyOf(n)) then
      [n] + sorted
    else
      assert sorted == [sorted[0]] + sorted[1..];
      [sorted[0]] + Insert(n, sorted[1..])
  }

  // sort.Slice(children, key order).
  function SortByKey(s: seq<Node>): (r: seq<Node>)
    ensures multiset(r) == multiset(s)
    ensures |r| == |s|
  {
    if s == [] then [] else
      assert s == [s[0]] + s[1..];
      Insert(s[0], SortByKey(s[1..]))
  }

  ghost predicate DistinctNodeKeys(s: seq<Node>) {
    forall i, j :: 0 <= i < j < |s| ==> KeyOf(s[i]) != KeyOf(s[j])
  }

  ghost predicate Ascending(s: seq<Node>) {
    forall i, j :: 0 <= i < j < |s| ==> Less(KeyOf(s[i]), KeyOf(s[j]))
  }

  lemma {:induction false} InsertAscends(n: Node, sorted: seq<Node>)
    requires Ascending(sorted)
    requires forall x | x in sorted :: KeyOf(x) != KeyOf(n)
    ensures Ascending(Insert(n, sorted))
  {
    if sorted == [] {
    } else if Less(KeyOf(sorted[0]), KeyOf(n)) {
      var tail := Insert(n, sorted[1..]);
      InsertAscends(n, sorted[1..]);
      forall x | x in tail ensures Less(KeyOf(sorted[0]), KeyOf(x)) {
        assert x in multiset(tail);
        assert x == n || x in multiset(sorted[1..]);
      }
      Prepended(sorted[0], tail);
    } else {
      LessTotal(KeyOf(n), KeyOf(sorted[0]));
      assert sorted[0] in sorted;
      forall x | x in sorted ensures Less(KeyOf(n), KeyOf(x)) {
        if x != sorted[0] {
          LessTransitive(KeyOf(n), KeyOf(sorted[0]), KeyOf(x));
        }
      }
      Prepended(n, sorted);
    }
  }

  lemma Prepended(n: Node, tail: seq<Node>)
    requires Ascending(tail) && forall x | x in tail :: Less(KeyOf(n), KeyOf(x))
    ensures Ascending([n] + tail)
  {}

  lemma {:induction false} InsertSize(n: Node, sorted: seq<Node>)
    ensures SizeAll(Insert(n, sorted)) == Size(n) + SizeAll(sorted)
  {
    if sorted != [] && Less(KeyOf(sorted[0]), KeyOf(n)) {
      InsertSize(n, sorted[1..]);
    }
  }

  lemma {:induction false} SortSize(s: seq<Node>)
    ensures SizeAll(SortByKey(s)) == SizeAll(s)
  {
    if s != [] {
      SortSize(s[1..]);
      InsertSize(s[0], SortByKey(s[1..]));
    }
  }

  // Distinct keys sort into strictly ascending order.
  lemma {:induction false} SortAscends(s: seq<Node>)
    requires DistinctNodeKeys(s)
    ensures Ascending(SortByKey(s))
  {
    if s != [] {
      SortAscends(s[1..]);
      forall x | x in SortByKey(s[1..]) ensures KeyOf(x) != KeyOf(s[0]) {
        assert x in multiset(SortByKey(s[1..]));
        assert x in s[1..];
      }
      InsertAscends(s[0], SortByKey(s[1..]));
    }
  }

  lemma SameHead(a: seq<Node>, b: seq<Node>)
    requires Ascending(a) && Ascending(b) && multiset(a) == multiset(b) && a != [] && b != []
    ensures a[0] == b[0]
  {
    assert a[0] in multiset(a) && b[0] in multiset(b);
    assert a[0] in b && b[0] in a;
    assert a[0] == b[0] || Less(KeyOf(a[0]), KeyOf(b[0]));
    assert a[0] == b[0] || Less(KeyOf(b[0]), KeyOf(a[0]));
    LessTotal(KeyOf(a[0]), KeyOf(b[0]));
  }

  lemma WithoutHead(a: seq<Node>)
    requires a != []
    ensures a == [a[0]] + a[1..] && multiset(a[1..]) == multiset(a) - multiset{a[0]}
  {
    assert a == [a[0]] + a[1..];
  }

  // Ascending lists are determined by their elements.
  lemma {:induction false} AscendingUnique(a: seq<Node>, b: seq<Node>)
    requires Ascending(a) && Ascending(b) && multiset(a) == multiset(b)
    ensures a == b
  {
    assert |a| == |multiset(a)| == |multiset(b)| == |b|;
    if a != [] {
      SameHead(a, b);
      WithoutHead(a);
      WithoutHead(b);
      AscendingUnique(a[1..], b[1..]);
    }
  }

  lemma DistinctIsOrderFree(a: seq<Node>, b: seq<Node>)
    requires DistinctNodeKeys(a) && multiset(a) == multiset(b)
    ensures DistinctNodeKeys(b)
  {
    forall i, j | 0 <= i < j < |b| ensures KeyOf(b[i]) != KeyOf(b[j]) {
      assert b[i] in multiset(b) && b[j] in multiset(b);
      assert b[i] in a && b[j] in a;
      if b[i] == b[j] {
        TwiceMeansTwoPlaces(b, i, j);
        OnceUnlessRepeated(a, b[i]);
        assert false;
      }
    }
  }

  lemma TwiceMeansTwoPlaces(s: seq<Node>, i: nat, j: nat)
    requires i < j < |s| && s[i] == s[j]
    ensures multiset(s)[s[i]] >= 2
  {
    assert s == s[..j] + [s[j]] + s[j + 1..];
    assert s[i] in s[..j] by { assert s[..j][i] == s[i]; }
    assert multiset(s) == multiset(s[..j]) + multiset{s[j]} + multiset(s[j + 1..]);
  }

  lemma {:induction false} OnceUnlessRepeated(s: seq<Node>, x: Node)
    requires DistinctNodeKeys(s)
    ensures multiset(s)[x] <= 1
  {
    if s != [] {
      assert s == [s[0]] + s[1..];
      OnceUnlessRepeated(s[1..], x);
      assert forall k :: 0 <= k < |s[1..]| ==> s[1..][k] == s[1 + k] && s[1 + k] != s[0];
    }
  }

  // Sorting forgets the order in which distinctly keyed nodes arrive.
  lemma SortIsOrderFree(a: seq<Node>, b: seq<Node>)
    requires DistinctNodeKeys(a) && multiset(a) == multiset(b)
    ensures SortByKey(a) == SortByKey(b)
  {
    DistinctIsOrderFree(a, b);
    SortAscends(a);
    SortAscends(b);
    AscendingUnique(SortByKey(a), SortByKey(b));
  }

  // ---------- the duplicate check: a set of the keys seen so far ----------

  ghost predicate DistinctAndSeen(fields: seq<Node>, seen: set<Bytes>) {
    && DistinctNodeKeys(fields)
    && (forall i | 0 <= i < |fields| :: KeyOf(fields[i]) in seen)
    && (forall k | k in seen :: exists i :: 0 <= i < |fields| && KeyOf(fields[i]) == k)
  }

  // What the set of seen keys says about the next field.
  lemma FieldSeen(fields: seq<Node>, seen: set<Bytes>, next: Node, rest: seq<Node>)
    requires DistinctAndSeen(fields, seen)
    ensures KeyOf(next) !in seen ==> DistinctAndSeen(fields + [next], seen + {KeyOf(next)})
    ensures KeyOf(next) in seen ==> !DistinctNodeKeys(fields + ([next] + rest))
  {
    var all := fields + ([next] + rest);
    assert all[|fields|] == next;
    if KeyOf(next) in seen {
      var i :| 0 <= i < |fields| && KeyOf(fields[i]) == KeyOf(next);
      assert all[i] == fields[i];
    } else {
      var more := fields + [next];
      forall k | k in seen + {KeyOf(next)} ensures exists i :: 0 <= i < |more| && KeyOf(more[i]) == k {
        if k == KeyOf(next) {
          assert KeyOf(more[|fields|]) == k;
        } else {
          var i :| 0 <= i < |fields| && KeyOf(fields[i]) == k;
          assert KeyOf(more[i]) == k;
        }
      }
    }
  }
}
