/** Column values laid out one after the other, as both columnar formats do. */
module PlainValues {
  import opened ByteStrings
  import opened Conversions
  import opened Floats
  import opened Segments
  import opened Uir

  // Floating-point conversions and fmt.Sprint.
  datatype Library = Library(floats: Floating, sprint: Value -> GoBytes)

  datatype Kind = KInt32 | KInt64 | KFloat | KDouble | KBytes | KText | KBool

  // ---------- writing ----------

  // The bits of a fixed-size value, zero for a value of another type.
  function BitsOf(kind: Kind, v: Value): uint64 {
    match kind
    case KInt32 => Wrap(if v.Int32? then v.i32 else 0) % 0x1_0000_0000
    case KInt64 => Wrap(if v.Int64? then v.i else 0)
    case KFloat => if v.Float32? then v.bits32 else 0
    case KDouble => if v.Float64? then v.bits else 0
    case _ => if v == Bool(true) then 1 else 0
  }

  function TextOf(kind: Kind, v: Value): GoBytes {
    if kind.KBytes? && v.Blob? then v.s else if kind.KText? && v.Str? then v.s else []
  }

  function Width(kind: Kind): nat {
    match kind case KInt32 => 4 case KInt64 => 8 case KFloat => 4 case KDouble => 8 case KBool => 1 case _ => 0
  }

  function Encode(kind: Kind, v: Value): Bytes {
    if Width(kind) > 0 then LittleEndian(Width(kind), BitsOf(kind, v))
    else LittleEndian(4, |TextOf(kind, v)|) + TextOf(kind, v)
  }

  function EncodeAll(kind: Kind, values: seq<Value>): Bytes {
    if values == [] then [] else Encode(kind, values[0]) + EncodeAll(kind, values[1..])
  }

  // ---------- reading ----------

  // Numbers take the bytes of their type, booleans one, and texts four for their length.
  lemma EncodedLength(kind: Kind, v: Value)
    ensures |Encode(kind, v)| == match kind
                                 case KInt32 => 4 case KFloat => 4 case KInt64 => 8 case KDouble => 8 case KBool => 1
                                 case _ => 4 + |TextOf(kind, v)|
  {}

  datatype ValueResult = NoMore | GotValue(value: Value, rest: Bytes)

  function FixedValue(kind: Kind, u: uint64): Value {
    match kind
    case KInt32 => Int32(ToInt32(u))
    case KInt64 => Int64(ToInt64(u))
    case KFloat => Float32(u % 0x1_0000_0000)
    case KDouble => Float64(u)
    case _ => Bool(u != 0)
  }

  function ReadValue(kind: Kind, s: Bytes): (r: ValueResult)
    ensures r.GotValue? ==> |r.rest| < |s|
  {
    var w := Width(kind);
    if w > 0 then
      if |s| < w then NoMore
      else
        FromLittleEndianBound(s[..w]);
        Pow256Widths();
        GotValue(FixedValue(kind, FromLittleEndian(s[..w])), s[w..])
    else if |s| < 4 then NoMore
    else
      var l := FromLittleEndian(s[..4]);
      FromLittleEndianBound(s[..4]);
      Pow256Widths();
      if |s[4..]| < l then NoMore
      else GotValue(if kind.KBytes? then Blob(s[4..][..l]) else Str(s[4..][..l]), s[4..][l..])
  }

  function ReadValues(kind: Kind, n: nat, s: Bytes): (r: Listing<Value>)
    ensures r.Listing? ==> |r.items| == n
  {
    if n == 0 then Listing([], s)
    else
      var v := ReadValue(kind, s);
      if v.NoMore? then NoListing else Behind([v.value], ReadValues(kind, n - 1, v.rest))
  }

  method ReadAll(payload: Bytes, kind: Kind, n: nat) returns (r: Option<seq<Value>>)
    ensures var all := ReadValues(kind, n, payload); r == if all.NoListing? then None else Some(all.items)
  {
    var out: seq<Value>, rest := [], payload;
    ghost var left := n;
    BehindNone(ReadValues(kind, n, payload));
    for i := 0 to n
      invariant left == n - i
      invariant Behind(out, ReadValues(kind, left, rest)) == ReadValues(kind, n, payload)
    {
      var v := ReadValue(kind, rest);
      if v.NoMore? {
        return None;
      }
      BehindTwice(out, [v.value], ReadValues(kind, left - 1, v.rest));
      out, rest, left := out + [v.value], v.rest, left - 1;
    }
    assert out + [] == out;
    return Some(out);
  }

  // ---------- values come back ----------

  // A value of the dynamic type of its kind, with a length that fits.
  predicate Fitting(kind: Kind, v: Value) {
    match kind
    case KInt32 => v.Int32?
    case KInt64 => v.Int64?
    case KFloat => v.Float32?
    case KDouble => v.Float64?
    case KBytes => v.Blob? && |v.s| < TWO_32
    case KText => v.Str? && |v.s| < TWO_32
    case KBool => v.Bool?
  }

  lemma ValueReads(kind: Kind, v: Value, rest: Bytes)
    requires Fitting(kind, v)
    ensures ReadValue(kind, Encode(kind, v) + rest) == GotValue(v, rest)
  {
    if Width(kind) > 0 {
      FixedReads(kind, v, rest);
    } else {
      ChunkReads(kind, v, rest);
    }
  }

  lemma FixedReads(kind: Kind, v: Value, rest: Bytes)
    requires Fitting(kind, v) && Width(kind) > 0
    ensures ReadValue(kind, Encode(kind, v) + rest) == GotValue(v, rest)
  {
    FixedComesBack(kind, v);
    var w := Width(kind);
    var b := LittleEndian(w, BitsOf(kind, v));
    LittleEndianRoundTrip(w, BitsOf(kind, v));
    assert (b + rest)[..w] == b && (b + rest)[w..] == rest;
  }

  lemma FixedComesBack(kind: Kind, v: Value)
    requires Fitting(kind, v) && Width(kind) > 0
    ensures BitsOf(kind, v) < Pow256(Width(kind)) && FixedValue(kind, BitsOf(kind, v)) == v
  {
    Pow256Widths();
    if v.Int32? {
      Narrows(v.i32);
    } else if v.Int64? {
      Narrows(v.i);
    }
  }

  lemma ChunkReads(kind: Kind, v: Value, rest: Bytes)
    requires Fitting(kind, v) && Width(kind) == 0
    ensures ReadValue(kind, Encode(kind, v) + rest) == GotValue(v, rest)
  {
    var l, body := LittleEndian(4, |v.s|), v.s + rest;
    Uint32Reads(|v.s|);
    Rejoin(l, v.s, rest);
    assert (l + body)[..4] == l && (l + body)[4..] == body && body[..|v.s|] == v.s && body[|v.s|..] == rest;
  }

  // Whatever follows, all the values are read back.
  lemma {:induction false} ValuesRead(kind: Kind, values: seq<Value>, rest: Bytes)
    requires forall i | 0 <= i < |values| :: Fitting(kind, values[i])
    ensures ReadValues(kind, |values|, EncodeAll(kind, values) + rest) == Listing(values, rest)
  {
    if values == [] {
      assert [] + rest == rest;
    } else {
      Rejoin(Encode(kind, values[0]), EncodeAll(kind, values[1..]), rest);
      FirstValueReads(kind, values[0], |values| - 1, EncodeAll(kind, values[1..]) + rest);
      ValuesRead(kind, values[1..], rest);
      assert values == [values[0]] + values[1..];
    }
  }

  lemma FirstValueReads(kind: Kind, v: Value, more: nat, behind: Bytes)
    requires Fitting(kind, v)
    ensures ReadValues(kind, more + 1, Encode(kind, v) + behind) == Behind([v], ReadValues(kind, more, behind))
  {
    ValueReads(kind, v, behind);
  }

  // ---------- what comes back for any value ----------

  // Whatever is read as a value of a kind has its dynamic type.
  lemma ReadIsFitting(kind: Kind, s: Bytes)
    requires ReadValue(kind, s).GotValue?
    ensures Fitting(kind, ReadValue(kind, s).value)
  {
    if Width(kind) == 0 {
      FromLittleEndianBound(s[..4]);
      Pow256Widths();
    }
  }

  lemma {:induction false} AllReadFit(kind: Kind, n: nat, s: Bytes)
    requires ReadValues(kind, n, s).Listing?
    ensures forall i | 0 <= i < n :: Fitting(kind, ReadValues(kind, n, s).items[i])
    decreases n
  {
    if n > 0 {
      var v := ReadValue(kind, s);
      ReadIsFitting(kind, s);
      AllReadFit(kind, n - 1, v.rest);
      assert ReadValues(kind, n, s).items == [v.value] + ReadValues(kind, n - 1, v.rest).items;
    }
  }

  // What is left of a value when it is written as one of a kind.
  function Kept(kind: Kind, v: Value): Value {
    match kind
    case KInt32 => if v.Int32? then v else Int32(0)
    case KInt64 => if v.Int64? then v else Int64(0)
    case KFloat => if v.Float32? then v else Float32(0)
    case KDouble => if v.Float64? then v else Float64(0)
    case KBytes => Blob(TextOf(kind, v))
    case KText => Str(TextOf(kind, v))
    case KBool => Bool(v == Bool(true))
  }

  lemma KeptFits(kind: Kind, v: Value)
    requires |TextOf(kind, v)| < TWO_32
    ensures Fitting(kind, Kept(kind, v)) && Encode(kind, Kept(kind, v)) == Encode(kind, v)
    ensures Fitting(kind, v) ==> Kept(kind, v) == v
  {}

  function KeptAll(kind: Kind, values: seq<Value>): (r: seq<Value>)
    ensures |r| == |values|
  {
    seq(|values|, i requires 0 <= i < |values| => Kept(kind, values[i]))
  }

  lemma {:induction false} KeptAllFit(kind: Kind, values: seq<Value>)
    requires forall i | 0 <= i < |values| :: |TextOf(kind, values[i])| < TWO_32
    ensures forall i | 0 <= i < |values| :: Fitting(kind, KeptAll(kind, values)[i])
    ensures EncodeAll(kind, KeptAll(kind, values)) == EncodeAll(kind, values)
  {
    if values != [] {
      KeptFits(kind, values[0]);
      KeptAllFit(kind, values[1..]);
      assert KeptAll(kind, values)[1..] == KeptAll(kind, values[1..]);
      forall i | 0 < i < |values| ensures Fitting(kind, KeptAll(kind, values)[i]) {
        assert KeptAll(kind, values)[i] == KeptAll(kind, values[1..])[i - 1];
      }
    }
  }
}
