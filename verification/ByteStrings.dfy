/** Bytes, Go's fixed-width integers and the two byte orders of encoding/binary. */
module ByteStrings {

  type byte = x: int | 0 <= x < 256
  type Bytes = seq<byte>

  const MAX_INT64: int := 0x7FFF_FFFF_FFFF_FFFF
  const TWO_32: int := 0x1_0000_0000
  const TWO_64: int := 0x1_0000_0000_0000_0000

  type uint16 = x: int | 0 <= x < 0x1_0000
  type uint32 = x: int | 0 <= x < 0x1_0000_0000
  type uint64 = x: int | 0 <= x < 0x1_0000_0000_0000_0000
  type int32 = x: int | -0x8000_0000 <= x <= 0x7FFF_FFFF
  type int64 = x: int | -0x8000_0000_0000_0000 <= x <= 0x7FFF_FFFF_FFFF_FFFF

  // A Go string or byte slice: its length always fits a machine word.
  type GoBytes = s: Bytes | |s| < 0x1_0000_0000_0000_0000

  datatype Option<+T> = None | Some(value: T)

  // A list in front of another one, if there is one.
  function Prefixed<T>(xs: seq<T>, r: Option<seq<T>>): Option<seq<T>> {
    if r.None? then None else Some(xs + r.value)
  }

  lemma PrefixedByNothing<T>(r: Option<seq<T>>)
    ensures Prefixed([], r) == r
  {
    if r.Some? {
      assert [] + r.value == r.value;
    }
  }

  lemma PrefixedTwice<T>(a: seq<T>, b: seq<T>, r: Option<seq<T>>)
    ensures Prefixed(a, Prefixed(b, r)) == Prefixed(a + b, r)
  {
    if r.Some? {
      Rejoin(a, b, r.value);
    }
  }

  lemma Rejoin<T>(a: seq<T>, b: seq<T>, c: seq<T>)
    ensures (a + b) + c == a + (b + c)
  {}

  // The bytes of an ASCII literal of the Go source.
  function Ascii(s: string): (b: Bytes)
    ensures |b| == |s|
    ensures forall i | 0 <= i < |b| :: b[i] < 0x80
  {
    seq(|s|, i requires 0 <= i < |s| => (s[i] as int) % 0x80)
  }

  function Pow256(n: nat): (p: nat)
    ensures p > 0
  {
    if n == 0 then 1 else 256 * Pow256(n - 1)
  }

  lemma Pow256Widths()
    ensures Pow256(1) == 0x100 && Pow256(2) == 0x1_0000
    ensures Pow256(4) == 0x1_0000_0000 && Pow256(8) == 0x1_0000_0000_0000_0000
  {
    assert Pow256(2) == 0x1_0000;
    assert Pow256(4) == 0x1_0000 * Pow256(2);
    assert Pow256(6) == 0x1_0000 * Pow256(4);
    assert Pow256(8) == 0x1_0000 * Pow256(6);
  }

  function BigEndian(width: nat, v: nat): (b: Bytes)
    ensures |b| == width
  {
    if width == 0 then [] else BigEndian(width - 1, v / 256) + [v % 256]
  }

  function FromBigEndian(b: Bytes): (v: nat)
  {
    if b == [] then 0 else FromBigEndian(b[..|b| - 1]) * 256 + b[|b| - 1]
  }

  lemma {:induction false} BigEndianRoundTrip(width: nat, v: nat)
    requires v < Pow256(width)
    ensures FromBigEndian(BigEndian(width, v)) == v
  {
    if width > 0 {
      BigEndianRoundTrip(width - 1, v / 256);
      var b := BigEndian(width, v);
      assert b[..width - 1] == BigEndian(width - 1, v / 256);
    }
  }

  lemma BigEndian16Reads(v: nat)
    requires v < 0x1_0000
    ensures FromBigEndian(BigEndian(2, v)) == v
  {
    Pow256Widths();
    BigEndianRoundTrip(2, v);
  }

  lemma {:induction false} FromBigEndianBound(b: Bytes)
    ensures FromBigEndian(b) < Pow256(|b|)
  {
    if b != [] {
      FromBigEndianBound(b[..|b| - 1]);
    }
  }

  lemma {:induction false} ToBigEndian(b: Bytes)
    ensures BigEndian(|b|, FromBigEndian(b)) == b
  {
    if b != [] {
      var front := b[..|b| - 1];
      ToBigEndian(front);
      assert FromBigEndian(b) / 256 == FromBigEndian(front) && FromBigEndian(b) % 256 == b[|b| - 1];
    }
  }

  lemma {:induction false} FromBigEndianSplits(b: Bytes)
    requires b != []
    ensures FromBigEndian(b) == b[0] * Pow256(|b| - 1) + FromBigEndian(b[1..])
  {
    if |b| == 1 {
      assert FromBigEndian(b) == FromBigEndian(b[..0]) * 256 + b[0];
      assert Pow256(0) == 1;
    } else {
      var front, m := b[..|b| - 1], |b| - 1;
      FromBigEndianSplits(front);
      assert front[1..] == b[1..][..m - 1];
      Times256(b[0], Pow256(m - 1));
    }
  }

  lemma Times256(a: nat, p: nat)
    ensures (a * p) * 256 == a * (256 * p)
  {}

  // The byte of weight 256^i.
  function ByteOf(v: nat, i: nat): byte {
    if i == 0 then v % 256 else ByteOf(v / 256, i - 1)
  }

  function LittleEndian(width: nat, v: nat): (b: Bytes)
    ensures |b| == width
  {
    seq(width, i requires 0 <= i < width => ByteOf(v, i))
  }

  function FromLittleEndian(b: Bytes): (v: nat)
  {
    if b == [] then 0 else b[0] + 256 * FromLittleEndian(b[1..])
  }

  lemma {:induction false} LittleEndianRoundTrip(width: nat, v: nat)
    requires v < Pow256(width)
    ensures FromLittleEndian(LittleEndian(width, v)) == v
  {
    if width > 0 {
      LittleEndianRoundTrip(width - 1, v / 256);
      assert LittleEndian(width, v)[1..] == LittleEndian(width - 1, v / 256);
    }
  }

  lemma Uint16Reads(v: nat)
    requires v < 0x1_0000
    ensures FromLittleEndian(LittleEndian(2, v)) == v
  {
    Pow256Widths();
    LittleEndianRoundTrip(2, v);
  }

  lemma Uint16Wraps(v: nat)
    ensures FromLittleEndian(LittleEndian(2, v)) == v % 0x1_0000
  {
    var b := LittleEndian(2, v);
    assert ByteOf(v, 1) == ByteOf(v / 256, 0);
    TwoBytes(b, v % 256, (v / 256) % 256);
    LowBytes(v);
  }

  lemma TwoBytes(b: Bytes, low: byte, high: byte)
    requires b == [low, high]
    ensures FromLittleEndian(b) == low + 256 * high
  {
    assert b[1..] == [high] && [high][1..] == [];
    assert FromLittleEndian([high]) == high + 256 * FromLittleEndian([]);
  }

  lemma LowBytes(v: nat)
    ensures v % 256 + 256 * ((v / 256) % 256) == v % 0x1_0000
  {
    var q := v / 256;
    LowPart(q / 256, v % 256 + 256 * (q % 256));
  }

  lemma LowPart(high: nat, low: nat)
    requires low < 0x1_0000
    ensures (0x1_0000 * high + low) % 0x1_0000 == low
  {}

  lemma Uint32Reads(v: nat)
    requires v < 0x1_0000_0000
    ensures FromLittleEndian(LittleEndian(4, v)) == v
  {
    Pow256Widths();
    LittleEndianRoundTrip(4, v);
  }

  lemma Uint64Reads(v: nat)
    requires v < 0x1_0000_0000_0000_0000
    ensures FromLittleEndian(LittleEndian(8, v)) == v
  {
    Pow256Widths();
    LittleEndianRoundTrip(8, v);
  }

  lemma {:induction false} FromLittleEndianBound(b: Bytes)
    ensures FromLittleEndian(b) < Pow256(|b|)
  {
    if b != [] {
      FromLittleEndianBound(b[1..]);
    }
  }

  // The last byte is the most significant one.
  lemma {:induction false} FromLittleEndianSplits(b: Bytes)
    requires b != []
    ensures FromLittleEndian(b) == b[|b| - 1] * Pow256(|b| - 1) + FromLittleEndian(b[..|b| - 1])
  {
    if |b| == 1 {
      assert b[1..] == [];
      assert Pow256(0) == 1;
    } else {
      var tail, m := b[1..], |b| - 1;
      FromLittleEndianSplits(tail);
      assert tail[..m - 1] == b[..m][1..];
      Times256(b[m], Pow256(m - 1));
    }
  }

  // The characters of an ASCII text are its bytes.
  lemma AsciiOf(s: string, i: nat)
    requires i < |s| && s[i] as int < 0x80
    ensures Ascii(s)[i] == s[i] as int
  {}

  // ---------- two's complement ----------

  function Signed(v: nat, width: nat): int {
    if 2 * v < Pow256(width) then v else v - Pow256(width)
  }

  function Unsigned(v: int, width: nat): nat
    requires 0 <= v + Pow256(width)
  {
    if v < 0 then v + Pow256(width) else v
  }

  lemma SignedFits(v: nat, width: nat)
    requires width in {1, 2, 4, 8} && v < Pow256(width)
    ensures -0x8000_0000_0000_0000 <= Signed(v, width) <= MAX_INT64
  {
    Pow256Widths();
  }

  // The bytes of a negative number are those of its sum with the power, which keeps it modulo that power.
  lemma UnsignedIsModulo(v: int, width: nat)
    requires width in {1, 2, 4, 8} && 0 <= 2 * v + Pow256(width) && 2 * v < Pow256(width)
    ensures Unsigned(v, width) == v % Pow256(width) && Signed(Unsigned(v, width), width) == v
  {
    Pow256Widths();
    ModuloIs(v, Pow256(width), Unsigned(v, width));
  }

  lemma ModuloIs(v: int, p: int, r: int)
    requires 0 <= r < p && (v == r || v == r - p)
    ensures v % p == r
  {
    var d := v / p;
    assert v == d * p + v % p;
    if d >= 1 {
      AtLeastOnce(d, p);
    } else if d <= -1 {
      AtLeastOnce(-d, p);
      if d <= -2 {
        AtLeastOnce(-d - 1, p);
      }
    }
  }

  lemma AtLeastOnce(d: int, p: int)
    requires d >= 1 && p > 0
    ensures d * p >= p && (-d) * p <= -p && (d + 1) * p == d * p + p && (-d - 1) * p == (-d) * p - p
  {}
}
