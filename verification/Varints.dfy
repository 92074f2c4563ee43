/** Base-128 integers as the Protobuf and Avro codecs write and read them. */
module Varints {
  import opened Bits
  import opened ByteStrings

  // ---------- what a sequence of bytes stands for ----------

  // The low seven bits of each byte, least significant byte first.
  function Value(b: Bytes): (v: nat) {
    if b == [] then 0 else b[0] % 128 + 128 * Value(b[1..])
  }

  lemma {:induction false} ValueBound(b: Bytes)
    ensures Value(b) < Pow2(7 * |b|)
  {
    if b != [] {
      ValueBound(b[1..]);
      Pow2Adds(7, 7 * |b[1..]|);
      Pow2Widths();
    }
  }

  lemma {:induction false} ValueAppends(a: Bytes, b: byte)
    ensures Value(a + [b]) == Value(a) + (b % 128) * Pow2(7 * |a|)
  {
    if a == [] {
      assert a + [b] == [b] && Value([b][1..]) == 0;
    } else {
      ValueAppends(a[1..], b);
      assert (a + [b])[1..] == a[1..] + [b];
      Pow2Adds(7, 7 * |a[1..]|);
      Pow2Widths();
      Times128(b % 128, Pow2(7 * |a[1..]|));
    }
  }

  lemma Times128(c: nat, p: nat)
    ensures 128 * (c * p) == c * (128 * p)
  {}

  // The position of the first byte without the continuation bit, |s| if there is none.
  function Terminator(s: Bytes): (i: nat)
    ensures i <= |s|
    ensures forall k | 0 <= k < i :: s[k] >= 128
    ensures i < |s| ==> s[i] < 128
  {
    if s == [] then 0 else if s[0] < 128 then 0 else 1 + Terminator(s[1..])
  }

  datatype Decoded<T> = Nothing | Got(value: T, size: nat)

  // The exact sum, for at most ten bytes and a sum of at most 64 bits.
  function ReadVarint(s: Bytes): (r: Decoded<uint64>)
    ensures r.Got? ==> 0 < r.size <= |s|
  {
    var i := Terminator(s);
    if i < |s| && i <= 9 && Value(s[..i + 1]) < TWO_64 then Got(Value(s[..i + 1]), i + 1) else Nothing
  }

  // ---------- writing ----------

  function Varint(v: nat): (b: Bytes)
    ensures |b| > 0
  {
    if v < 128 then [v] else [v % 128 + 128] + Varint(v / 128)
  }

  method EncodeVarint(value: uint64) returns (buf: Bytes)
    ensures buf == Varint(value)
  {
    buf := [];
    var v := value;
    while v >= 0x80
      invariant buf + Varint(v) == Varint(value)
    {
      assert (buf + [v % 128 + 128]) + Varint(v / 128) == buf + ([v % 128 + 128] + Varint(v / 128));
      buf := buf + [v % 128 + 128];
      v := v / 128;
    }
    buf := buf + [v];
  }

  lemma {:induction false} VarintReads(v: nat, rest: Bytes)
    ensures Terminator(Varint(v) + rest) == |Varint(v)| - 1
  {
    if v >= 128 {
      VarintReads(v / 128, rest);
      ContinuedReads(v % 128 + 128, Varint(v / 128), rest, Varint(v) + rest);
    }
  }

  lemma ContinuedReads(first: byte, more: Bytes, rest: Bytes, all: Bytes)
    requires first >= 128 && all == ([first] + more) + rest
    ensures Terminator(all) == 1 + Terminator(more + rest)
  {
    assert all[1..] == more + rest;
  }

  lemma {:induction false} VarintStandsFor(v: nat)
    ensures Value(Varint(v)) == v
  {
    if v < 128 {
      assert Value([v][1..]) == 0;
    } else {
      VarintStandsFor(v / 128);
      assert Varint(v)[1..] == Varint(v / 128);
    }
  }

  lemma {:induction false} VarintLength(v: nat, n: nat)
    requires n > 0 && v < Pow2(7 * n)
    ensures |Varint(v)| <= n
  {
    if v >= 128 {
      if n == 1 {
        Pow2Widths();
      } else {
        Pow2Adds(7, 7 * (n - 1));
        Pow2Widths();
        VarintLength(v / 128, n - 1);
      }
    }
  }

  // Every 64-bit number is read back from its encoding, whatever follows.
  lemma VarintRoundTrip(v: uint64, rest: Bytes)
    ensures ReadVarint(Varint(v) + rest) == Got(v, |Varint(v)|)
  {
    VarintReads(v, rest);
    VarintStandsFor(v);
    FitsTenBytes(v);
    assert (Varint(v) + rest)[..|Varint(v)|] == Varint(v);
  }

  lemma FitsTenBytes(v: uint64)
    ensures |Varint(v)| <= 10
  {
    Pow2Widths();
    Pow2Grows(64, 70);
    VarintLength(v, 10);
  }

  // No accepted encoding is shorter than the one written.
  lemma VarintIsShortest(s: Bytes)
    requires ReadVarint(s).Got?
    ensures |Varint(ReadVarint(s).value)| <= ReadVarint(s).size
  {
    var r := ReadVarint(s);
    ValueBound(s[..r.size]);
    VarintLength(r.value, r.size);
  }

  // ---------- reading ----------

  function Or(a: uint64, b: uint64): uint64 {
    Pow2Widths();
    OrBits(a, b, 64)
  }

  // v << shift on 64 bits.
  function ShiftLeft(v: nat, shift: nat): uint64 {
    (v * Pow2(shift)) % TWO_64
  }

  lemma OrSum(a: uint64, w: uint64, m: nat, k: nat)
    requires w == m * Pow2(k) && a < Pow2(k) && a + w < TWO_64
    ensures Or(a, w) == a + w
  {
    Pow2Widths();
    OrAdds(a, m, k, 64);
  }

  // One step of a reader's loop: while the sum stays below 2^64 the bits just add up.
  lemma OrStep(v: uint64, group: nat, shift: nat, w: nat)
    requires w == group * Pow2(shift) && v < Pow2(shift) && v + w < TWO_64
    ensures Or(v, ShiftLeft(group, shift)) == v + w
  {
    OrSum(v, w, group, shift);
    BelowModulus(w);
  }

  lemma BelowModulus(w: nat)
    requires w < TWO_64
    ensures w % TWO_64 == w
  {}

  // Nine groups of seven bits always fit, and of a tenth one only the lowest bit does.
  lemma GroupFits(v: nat, b: byte, i: nat)
    requires i <= 9 && v < Pow2(7 * i)
    ensures i < 9 ==> v + (b % 128) * Pow2(7 * i) < TWO_64
    ensures i == 9 ==> (v + (b % 128) * Pow2(7 * i) < TWO_64 <==> b % 128 <= 1)
  {
    Pow2Widths();
    if i < 9 {
      Pow2Adds(7, 7 * i);
      Pow2Grows(7 * i + 7, 63);
      MultipleBound(b % 128, 127, Pow2(7 * i));
    } else {
      assert Pow2(7 * i) == Pow2(63);
    }
  }

  lemma MultipleBound(c: nat, d: nat, p: nat)
    requires c <= d
    ensures c * p <= d * p
  {}

  // The byte behind i groups, when the sum with it still fits.
  lemma NextGroup(s: Bytes, i: nat, v: uint64)
    requires i < |s| && i <= 9 && v == Value(s[..i])
    ensures Value(s[..i + 1]) < TWO_64 <==> i < 9 || s[i] % 128 <= 1
    ensures Value(s[..i + 1]) < TWO_64 ==> Or(v, ShiftLeft(s[i] % 128, 7 * i)) == Value(s[..i + 1])
  {
    assert s[..i + 1] == s[..i] + [s[i]];
    ValueAppends(s[..i], s[i]);
    ValueBound(s[..i]);
    GroupFits(v, s[i], i);
    if Value(s[..i + 1]) < TWO_64 {
      OrStep(v, s[i] % 128, 7 * i, (s[i] % 128) * Pow2(7 * i));
    }
  }

  // v |= uint64(b&0x7f) << shift
  method AddGroup(s: Bytes, i: nat, v: uint64, shift: nat) returns (r: uint64)
    requires i < |s| && shift == 7 * i && (i <= 9 ==> v == Value(s[..i]))
    ensures i <= 9 ==> (Value(s[..i + 1]) < TWO_64 <==> i < 9 || s[i] % 128 <= 1)
    ensures i <= 9 && Value(s[..i + 1]) < TWO_64 ==> r == Value(s[..i + 1])
  {
    if i <= 9 {
      NextGroup(s, i, v);
    }
    r := Or(v, ShiftLeft(s[i] % 128, shift));
  }

  method DecodeVarint(data: Bytes) returns (r: Decoded<uint64>)
    ensures r == ReadVarint(data)
  {
    var v: uint64, shift := 0, 0;
    for i := 0 to |data|
      invariant i <= Terminator(data) && shift == 7 * i
      invariant i <= 9 ==> v == Value(data[..i])
    {
      var b := data[i];
      var sum := AddGroup(data, i, v, shift);
      if b < 0x80 {
        if i > 9 || (i == 9 && b > 1) {
          return Nothing;
        }
        return Got(sum, i + 1);
      }
      v := sum;
      shift := shift + 7;
    }
    return Nothing;
  }

  // ---------- zigzag ----------

  const ALL_ONES: uint64 := 0xFFFF_FFFF_FFFF_FFFF

  function Xor(a: uint64, b: uint64): uint64 {
    Pow2Widths();
    XorBound(a, b, 64, Pow2(64));
    XorBits(a, b, 64)
  }

  // uint64((v << 1) ^ (v >> 63))
  function ZigZag(v: int64): uint64 {
    Xor((2 * v) % TWO_64, if v < 0 then ALL_ONES else 0)
  }

  // int64(u >> 1) ^ -int64(u & 1)
  function UnZigZag(u: uint64): int64 {
    var bits := Xor(u / 2, if u % 2 == 1 then ALL_ONES else 0);
    if bits <= MAX_INT64 then bits else bits - TWO_64
  }

  lemma XorMask(a: uint64)
    ensures Xor(a, 0) == a && Xor(a, ALL_ONES) == ALL_ONES - a
  {
    Pow2Widths();
    XorZero(a, 64);
    XorOnes(a, 64);
  }

  // The sign moves to the lowest bit, so that numbers near 0 stay short.
  lemma ZigZagOrder(v: int64, u: uint64)
    ensures ZigZag(v) == if v >= 0 then 2 * v else -2 * v - 1
    ensures UnZigZag(u) == if u % 2 == 0 then u / 2 else -1 - u / 2
  {
    XorMask((2 * v) % TWO_64);
    XorMask(u / 2);
  }

  lemma ZigZagRoundTrip(v: int64, u: uint64)
    ensures UnZigZag(ZigZag(v)) == v && ZigZag(UnZigZag(u)) == u
  {
    ZigZagOrder(v, ZigZag(v));
    ZigZagOrder(UnZigZag(u), u);
  }

  // ---------- Avro longs ----------

  // Up to eleven bytes are taken, and bits above the 64th are dropped.
  function ReadLong(s: Bytes): (r: Decoded<int64>)
    ensures r.Got? ==> 0 < r.size <= |s|
  {
    var i := Terminator(s);
    if i < |s| && i <= 10 then Got(UnZigZag(Value(s[..i + 1]) % TWO_64), i + 1) else Nothing
  }

  method WriteAvroLong(buf: Bytes, v: int64) returns (r: Bytes)
    ensures r == buf + Varint(ZigZag(v))
  {
    var code := EncodeVarint(ZigZag(v));
    r := buf + code;
  }

  // The byte behind i groups, when the sum is kept on 64 bits.
  lemma NextGroupWraps(s: Bytes, i: nat, v: uint64)
    requires i < |s| && i <= 10 && v == Value(s[..i]) % TWO_64
    ensures Or(v, ShiftLeft(s[i] % 128, 7 * i)) == Value(s[..i + 1]) % TWO_64
  {
    if i < 9 {
      EarlyGroup(s, i, v);
    } else {
      LateGroup(s, i, v);
    }
  }

  lemma LateGroup(s: Bytes, i: nat, v: uint64)
    requires i < |s| && 9 <= i <= 10 && v == Value(s[..i]) % TWO_64
    ensures Or(v, ShiftLeft(s[i] % 128, 7 * i)) == Value(s[..i + 1]) % TWO_64
  {
    assert s[..i + 1] == s[..i] + [s[i]];
    if i == 9 {
      TenthByte(s[..9], s[9], v);
    } else {
      EleventhByte(s[..10], s[10], v);
    }
  }

  lemma TenthByte(front: Bytes, b: byte, v: uint64)
    requires |front| == 9 && v == Value(front) % TWO_64
    ensures Or(v, ShiftLeft(b % 128, 63)) == Value(front + [b]) % TWO_64
  {
    ValueBound(front);
    ValueAppends(front, b);
    TenthGroup(Value(front), b % 128);
  }

  lemma EleventhByte(front: Bytes, b: byte, v: uint64)
    requires |front| == 10 && v == Value(front) % TWO_64
    ensures Or(v, ShiftLeft(b % 128, 70)) == Value(front + [b]) % TWO_64
  {
    ValueAppends(front, b);
    EleventhGroup(Value(front), b % 128);
  }

  lemma EarlyGroup(s: Bytes, i: nat, v: uint64)
    requires i < |s| && i < 9 && v == Value(s[..i]) % TWO_64
    ensures Or(v, ShiftLeft(s[i] % 128, 7 * i)) == Value(s[..i + 1]) % TWO_64
  {
    ValueBound(s[..i]);
    Pow2Grows(7 * i, 64);
    Pow2Widths();
    BelowModulus(Value(s[..i]));
    NextGroup(s, i, v);
    BelowModulus(Value(s[..i + 1]));
  }

  // Dropping multiples of 2^64.
  lemma Wraps(q: nat, x: nat)
    ensures (q * TWO_64 + x) % TWO_64 == x % TWO_64
  {}

  // Of the tenth group one bit is kept, ...
  lemma TenthGroup(v: nat, c: nat)
    requires v < Pow2(63)
    ensures Or(v % TWO_64, ShiftLeft(c, 63)) == (v + c * Pow2(63)) % TWO_64
  {
    Pow2Widths();
    TenthBit(v, c / 2, c % 2, Pow2(63));
    assert c == 2 * (c / 2) + c % 2;
    OrSum(v, (c % 2) * Pow2(63), c % 2, 63);
  }

  lemma TenthBit(v: nat, q: nat, r: nat, p: nat)
    requires p == 0x8000_0000_0000_0000 && v < p && r < 2
    ensures ((2 * q + r) * p) % TWO_64 == r * p && v % TWO_64 == v
    ensures (v + (2 * q + r) * p) % TWO_64 == v + r * p < TWO_64
  {
    assert (2 * q + r) * p == q * TWO_64 + r * p;
    Wraps(q, r * p);
    Wraps(q, v + r * p);
  }

  // ... and of the eleventh nothing.
  lemma EleventhGroup(v: nat, c: nat)
    ensures Or(v % TWO_64, ShiftLeft(c, 70)) == (v + c * Pow2(70)) % TWO_64
  {
    Pow2Widths();
    Pow2Adds(64, 6);
    EleventhBits(v, c, Pow2(6), Pow2(70));
    OrSum(v % TWO_64, 0, 0, 64);
  }

  lemma EleventhBits(v: nat, c: nat, p: nat, big: nat)
    requires big == TWO_64 * p
    ensures (c * big) % TWO_64 == 0 && (v + c * big) % TWO_64 == v % TWO_64
  {
    assert c * big == (c * p) * TWO_64;
    Wraps(c * p, 0);
    Wraps(c * p, v);
  }

  method ReadAvroLong(data: Bytes) returns (r: Decoded<int64>)
    ensures r == ReadLong(data)
  {
    var v: uint64, shift := 0, 0;
    for i := 0 to |data|
      invariant i <= 10 && i <= Terminator(data) && shift == 7 * i
      invariant v == Value(data[..i]) % TWO_64
    {
      var b := data[i];
      NextGroupWraps(data, i, v);
      v := Or(v, ShiftLeft(b % 128, shift));
      if b < 0x80 {
        return Got(UnZigZag(v), i + 1);
      }
      shift := shift + 7;
      if i > 9 {
        return Nothing;
      }
    }
    return Nothing;
  }

  // Every 64-bit number comes back, whatever follows.
  lemma LongRoundTrip(v: int64, rest: Bytes)
    ensures ReadLong(Varint(ZigZag(v)) + rest) == Got(v, |Varint(ZigZag(v))|)
  {
    LongReads(ZigZag(v), rest);
    ZigZagRoundTrip(v, 0);
  }

  lemma LongReads(u: uint64, rest: Bytes)
    ensures ReadLong(Varint(u) + rest) == Got(UnZigZag(u), |Varint(u)|)
  {
    VarintRoundTrip(u, rest);
    ReadersAgree(Varint(u) + rest);
  }

  // The two readers: Avro takes all that Protobuf takes and reads the same number, and takes more exactly
  // when at most eleven bytes carry a number of more than 64 bits.
  lemma ReadersAgree(s: Bytes)
    ensures ReadVarint(s).Got? ==> ReadLong(s) == Got(UnZigZag(ReadVarint(s).value), ReadVarint(s).size)
    ensures ReadLong(s).Got? && ReadVarint(s).Nothing? <==>
              Terminator(s) < |s| && Terminator(s) <= 10 && (Terminator(s) == 10 || Value(s[..Terminator(s) + 1]) >= TWO_64)
  {
    var i := Terminator(s);
    if i < |s| && Value(s[..i + 1]) < TWO_64 {
      BelowModulus(Value(s[..i + 1]));
    }
  }

  // Such an input: ten bytes for 2^64, which Avro reads as 0.
  lemma AvroDropsBits(s: Bytes)
    requires |s| == 10 && s[9] == 0x02 && forall i | 0 <= i < 9 :: s[i] == 0x80
    ensures ReadVarint(s).Nothing? && ReadLong(s) == Got(0, 10)
  {
    ZerosAreZero(s[..9]);
    assert s[..9] + [0x02] == s == s[..10];
    TopBit(s[..9]);
    ZigZagOrder(0, 0);
  }

  lemma TopBit(zeros: Bytes)
    requires |zeros| == 9 && Value(zeros) == 0
    ensures Value(zeros + [0x02]) == TWO_64
  {
    ValueAppends(zeros, 0x02);
    Pow2Widths();
  }

  lemma {:induction false} ZerosAreZero(b: Bytes)
    requires forall i | 0 <= i < |b| :: b[i] == 0x80
    ensures Value(b) == 0
  {
    if b != [] {
      ZerosAreZero(b[1..]);
    }
  }
}
