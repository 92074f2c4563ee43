/** Widening of IEEE 754 bit patterns to binary64. */
module Floats {
  import opened Bits
  import opened ByteStrings

  const TWO_42: int := 0x400_0000_0000
  const TWO_52: int := 0x10_0000_0000_0000
  const DOUBLE_INFINITY: int := 0x7FF0_0000_0000_0000
  const GO_NAN: uint64 := 0x7FF8_0000_0000_0001

  // Brings a subnormal fraction to the form 1.x: doubles it until its leading bit sits at `top`.
  function Renormalise(fraction: nat, exponent: nat, top: nat): (r: (nat, nat))
    requires 0 < fraction < 2 * top
    ensures r.0 < top && r.1 <= exponent
    decreases exponent
  {
    if fraction >= top then (fraction - top, exponent)
    else if exponent == 0 then (fraction, 0)
    else Renormalise(2 * fraction, exponent - 1, top)
  }

  // The binary64 pattern of a binary16 one, as the reader expands it; every NaN becomes Go's.
  function HalfToDouble(h: uint16): uint64 {
    var sign := if h >= 0x8000 then 0x8000_0000_0000_0000 else 0;
    var exp, frac := (h / 1024) % 32, h % 1024;
    if exp == 31 then
      if frac != 0 then GO_NAN else sign + DOUBLE_INFINITY
    else if exp != 0 then sign + (exp + 1008) * TWO_52 + frac * TWO_42
    else if frac == 0 then sign
    else
      var (m, e) := Renormalise(frac, 1009, 1024);
      sign + e * TWO_52 + m * TWO_42
  }

  // float64(f) of a float32, on the usual hardware: NaN payloads are kept and made quiet.
  function SingleToDouble(f: uint32): uint64 {
    var sign := if f >= 0x8000_0000 then 0x8000_0000_0000_0000 else 0;
    var exp, frac := (f / 0x80_0000) % 256, f % 0x80_0000;
    if exp == 255 then
      if frac == 0 then sign + DOUBLE_INFINITY
      else sign + DOUBLE_INFINITY + (if frac < 0x40_0000 then frac + 0x40_0000 else frac) * 0x2000_0000
    else if exp != 0 then sign + (exp + 896) * TWO_52 + frac * 0x2000_0000
    else if frac == 0 then sign
    else
      var (m, e) := Renormalise(frac, 897, 0x80_0000);
      sign + e * TWO_52 + m * 0x2000_0000
  }

  // ---------- magnitudes, in units of 2^-1074 ----------

  // The scale of a number: subnormal numbers have that of the smallest normal ones.
  function Scale(exp: nat): nat {
    if exp == 0 then 0 else exp - 1
  }

  // |h| for finite h: a subnormal fraction counts in 2^-24.
  function HalfMagnitude(h: uint16): nat {
    var exp, frac := (h / 1024) % 32, h % 1024;
    (if exp == 0 then frac else 1024 + frac) * Pow2(Scale(exp) + 1050)
  }

  // |f| for finite f: a subnormal fraction counts in 2^-149.
  function SingleMagnitude(f: uint32): nat {
    var exp, frac := (f / 0x80_0000) % 256, f % 0x80_0000;
    (if exp == 0 then frac else 0x80_0000 + frac) * Pow2(Scale(exp) + 925)
  }

  // |d| for finite d.
  function DoubleMagnitude(d: uint64): nat {
    var exp, frac := (d / 0x10_0000_0000_0000) % 2048, d % 0x10_0000_0000_0000;
    (if exp == 0 then frac else 0x10_0000_0000_0000 + frac) * Pow2(Scale(exp))
  }

  predicate Agrees(d: uint64, sign: nat, magnitude: nat) {
    d / 0x8000_0000_0000_0000 == sign && DoubleMagnitude(d) == magnitude
  }

  predicate IsInfinite(d: uint64) {
    (d / 0x10_0000_0000_0000) % 2048 == 2047 && d % 0x10_0000_0000_0000 == 0
  }

  predicate IsNaN(d: uint64) {
    (d / 0x10_0000_0000_0000) % 2048 == 2047 && d % 0x10_0000_0000_0000 != 0
  }

  lemma DivMod(q: nat, r: nat, m: nat)
    requires r < m
    ensures (q * m + r) / m == q && (q * m + r) % m == r
  {
    var n := q * m + r;
    var d := q - n / m;
    assert d * m == n % m - r;
    Multiples(d, m);
  }

  lemma Multiples(d: int, m: nat)
    ensures d >= 1 ==> d * m >= m
    ensures d <= -1 ==> d * m + m <= 0
  {}

  // The parts of a binary64 pattern.
  lemma DoubleParts(sign: nat, e: nat, m: nat)
    requires sign < 2 && e < 2048 && m < 0x10_0000_0000_0000
    ensures var d := sign * 0x8000_0000_0000_0000 + e * 0x10_0000_0000_0000 + m;
            && d < TWO_64 && d / 0x8000_0000_0000_0000 == sign
            && (d / 0x10_0000_0000_0000) % 2048 == e && d % 0x10_0000_0000_0000 == m
  {
    var d := sign * 0x8000_0000_0000_0000 + e * 0x10_0000_0000_0000 + m;
    assert d == (sign * 2048 + e) * 0x10_0000_0000_0000 + m;
    DivMod(sign * 2048 + e, m, 0x10_0000_0000_0000);
    DivMod(sign, e, 2048);
    DivMod(sign, e * 0x10_0000_0000_0000 + m, 0x8000_0000_0000_0000);
  }

  // Renormalising keeps the product of fraction and power, if the exponent leaves room for `steps` steps.
  lemma {:induction false} RenormaliseExact(fraction: nat, exponent: nat, top: nat, steps: nat)
    requires 0 < fraction < 2 * top && exponent > steps && Pow2(steps) * fraction >= top
    ensures var (m, e) := Renormalise(fraction, exponent, top);
            e > 0 && m < top && (top + m) * Pow2(e) == fraction * Pow2(exponent)
    decreases exponent
  {
    if fraction < top {
      Regroup(Pow2(steps - 1), 2, fraction);
      RenormaliseExact(2 * fraction, exponent - 1, top, steps - 1);
      Regroup(fraction, 2, Pow2(exponent - 1));
    }
  }

  lemma Regroup(a: nat, b: nat, c: nat)
    ensures (a * b) * c == a * (b * c) && (a * b) * c == (a * c) * b
  {}

  // A leading bit and a fraction of fewer bits, as wide as `unit` asks.
  lemma Scaled(top: nat, m: nat, unit: nat, e: nat)
    requires top * unit == 0x10_0000_0000_0000 && e > 0
    ensures 0x10_0000_0000_0000 + m * unit == (top + m) * unit
    ensures m < top ==> m * unit < 0x10_0000_0000_0000
    ensures (0x10_0000_0000_0000 + m * unit) * Pow2(e - 1) == (top + m) * (unit * Pow2(e - 1))
  {
    Regroup(top + m, unit, Pow2(e - 1));
    assert (top + m) * unit == top * unit + m * unit;
    if m < top {
      Multiples(top - m, unit);
      assert (top - m) * unit == top * unit - m * unit;
    }
  }

  lemma UnitPowers()
    ensures TWO_42 == Pow2(42) && 0x2000_0000 == Pow2(29)
  {
    Pow2Widths();
    Pow2Adds(7, 7);
    Pow2Adds(14, 14);
    Pow2Adds(28, 14);
    assert Pow2(29) == 2 * Pow2(28);
  }

  lemma TenBits()
    ensures Pow2(10) == 1024 && Pow2(23) == 0x80_0000
  {
    Pow2Widths();
    assert Pow2(10) == 8 * Pow2(7);
    Pow2Adds(10, 10);
    assert Pow2(23) == 8 * Pow2(20);
  }

  // From the renormalised product to the magnitude.
  lemma Spread(a: nat, e: nat, frac: nat, exponent: nat, k: nat, unit: nat)
    requires e > 0 && a * Pow2(e) == frac * Pow2(exponent) && unit == Pow2(k + 1)
    ensures a * (unit * Pow2(e - 1)) == frac * Pow2(exponent + k)
  {
    Pow2Adds(k + 1, e - 1);
    Pow2Adds(e, k);
    Pow2Adds(exponent, k);
    Regroup(a, Pow2(e), Pow2(k));
    Regroup(frac, Pow2(exponent), Pow2(k));
  }

  // The pattern put together from a renormalised fraction.
  lemma RenormalisedMagnitude(sign: nat, frac: nat, exponent: nat, top: nat, steps: nat, unit: nat, k: nat)
    requires sign < 2 && 0 < frac < top && steps < exponent < 2048 && Pow2(steps) == top
    requires top * unit == 0x10_0000_0000_0000 && unit == Pow2(k + 1)
    ensures var (m, e) := Renormalise(frac, exponent, top);
            var d := sign * 0x8000_0000_0000_0000 + e * 0x10_0000_0000_0000 + m * unit;
            d < TWO_64 && Agrees(d, sign, frac * Pow2(exponent + k))
  {
    Multiples(frac, top);
    RenormaliseExact(frac, exponent, top, steps);
    var (m, e) := Renormalise(frac, exponent, top);
    Scaled(top, m, unit, e);
    DoubleParts(sign, e, m * unit);
    Spread(top + m, e, frac, exponent, k, unit);
  }

  // ---------- widening a half-precision number is exact ----------

  // Every finite half-precision number keeps its sign and its exact magnitude.
  lemma HalfExpansionIsExact(h: uint16)
    requires (h / 1024) % 32 != 31
    ensures Agrees(HalfToDouble(h), h / 0x8000, HalfMagnitude(h))
  {
    if (h / 1024) % 32 != 0 {
      NormalHalf(h);
    } else if h % 1024 != 0 {
      SubnormalHalf(h);
    } else {
      ZeroHalf(h);
    }
  }

  lemma NormalHalf(h: uint16)
    requires 0 < (h / 1024) % 32 < 31
    ensures Agrees(HalfToDouble(h), h / 0x8000, HalfMagnitude(h))
  {
    var sign, exp, frac := if h >= 0x8000 then 1 else 0, (h / 1024) % 32, h % 1024;
    NormalHalfParts(sign, exp, frac);
  }

  lemma SubnormalHalf(h: uint16)
    requires (h / 1024) % 32 == 0 && h % 1024 != 0
    ensures Agrees(HalfToDouble(h), h / 0x8000, HalfMagnitude(h))
  {
    var sign, frac := if h >= 0x8000 then 1 else 0, h % 1024;
    SubnormalHalfParts(sign, frac);
    assert HalfMagnitude(h) == frac * Pow2(Scale(0) + 1050);
  }

  lemma ZeroHalf(h: uint16)
    requires (h / 1024) % 32 == 0 && h % 1024 == 0
    ensures Agrees(HalfToDouble(h), h / 0x8000, HalfMagnitude(h))
  {
    DoubleParts(if h >= 0x8000 then 1 else 0, 0, 0);
  }

  lemma NormalHalfParts(sign: nat, exp: nat, frac: nat)
    requires sign < 2 && 0 < exp < 31 && frac < 1024
    ensures var d := sign * 0x8000_0000_0000_0000 + (exp + 1008) * 0x10_0000_0000_0000 + frac * TWO_42;
            d < TWO_64 && Agrees(d, sign, (1024 + frac) * Pow2(Scale(exp) + 1050))
  {
    Scaled(1024, frac, TWO_42, exp + 1008);
    DoubleParts(sign, exp + 1008, frac * TWO_42);
    UnitPowers();
    Pow2Adds(42, exp + 1007);
  }

  lemma SubnormalHalfParts(sign: nat, frac: nat)
    requires sign < 2 && 0 < frac < 1024
    ensures var (m, e) := Renormalise(frac, 1009, 1024);
            var d := sign * 0x8000_0000_0000_0000 + e * 0x10_0000_0000_0000 + m * TWO_42;
            d < TWO_64 && Agrees(d, sign, frac * Pow2(Scale(0) + 1050))
  {
    TenBits();
    UnitPowers();
    RenormalisedMagnitude(sign, frac, 1009, 1024, 10, TWO_42, 41);
  }

  // Infinities keep their sign, and every NaN becomes the one of math.NaN.
  lemma SpecialHalf(h: uint16)
    requires (h / 1024) % 32 == 31
    ensures h % 1024 == 0 ==> IsInfinite(HalfToDouble(h)) && HalfToDouble(h) / 0x8000_0000_0000_0000 == h / 0x8000
    ensures h % 1024 != 0 ==> IsNaN(HalfToDouble(h)) && HalfToDouble(h) == 0x7FF8_0000_0000_0001
  {
    DoubleParts(h / 0x8000, 2047, 0);
  }

  // ---------- widening a single-precision number is exact ----------

  // Every finite single-precision number keeps its sign and its exact magnitude.
  lemma SingleExpansionIsExact(f: uint32)
    requires (f / 0x80_0000) % 256 != 255
    ensures Agrees(SingleToDouble(f), f / 0x8000_0000, SingleMagnitude(f))
  {
    if (f / 0x80_0000) % 256 != 0 {
      NormalSingle(f);
    } else if f % 0x80_0000 != 0 {
      SubnormalSingle(f);
    } else {
      ZeroSingle(f);
    }
  }

  lemma NormalSingle(f: uint32)
    requires 0 < (f / 0x80_0000) % 256 < 255
    ensures Agrees(SingleToDouble(f), f / 0x8000_0000, SingleMagnitude(f))
  {
    var sign, exp, frac := if f >= 0x8000_0000 then 1 else 0, (f / 0x80_0000) % 256, f % 0x80_0000;
    NormalSingleParts(sign, exp, frac);
  }

  lemma SubnormalSingle(f: uint32)
    requires (f / 0x80_0000) % 256 == 0 && f % 0x80_0000 != 0
    ensures Agrees(SingleToDouble(f), f / 0x8000_0000, SingleMagnitude(f))
  {
    var sign, frac := if f >= 0x8000_0000 then 1 else 0, f % 0x80_0000;
    SubnormalSingleParts(sign, frac);
    assert SingleMagnitude(f) == frac * Pow2(Scale(0) + 925);
  }

  lemma ZeroSingle(f: uint32)
    requires (f / 0x80_0000) % 256 == 0 && f % 0x80_0000 == 0
    ensures Agrees(SingleToDouble(f), f / 0x8000_0000, SingleMagnitude(f))
  {
    DoubleParts(if f >= 0x8000_0000 then 1 else 0, 0, 0);
  }

  lemma NormalSingleParts(sign: nat, exp: nat, frac: nat)
    requires sign < 2 && 0 < exp < 255 && frac < 0x80_0000
    ensures var d := sign * 0x8000_0000_0000_0000 + (exp + 896) * 0x10_0000_0000_0000 + frac * 0x2000_0000;
            d < TWO_64 && Agrees(d, sign, (0x80_0000 + frac) * Pow2(Scale(exp) + 925))
  {
    Scaled(0x80_0000, frac, 0x2000_0000, exp + 896);
    DoubleParts(sign, exp + 896, frac * 0x2000_0000);
    UnitPowers();
    Pow2Adds(29, exp + 895);
  }

  lemma SubnormalSingleParts(sign: nat, frac: nat)
    requires sign < 2 && 0 < frac < 0x80_0000
    ensures var (m, e) := Renormalise(frac, 897, 0x80_0000);
            var d := sign * 0x8000_0000_0000_0000 + e * 0x10_0000_0000_0000 + m * 0x2000_0000;
            d < TWO_64 && Agrees(d, sign, frac * Pow2(Scale(0) + 925))
  {
    TenBits();
    UnitPowers();
    RenormalisedMagnitude(sign, frac, 897, 0x80_0000, 23, 0x2000_0000, 28);
  }

  // Infinities keep their sign, and a NaN stays a NaN of the same sign.
  lemma SpecialSingle(f: uint32)
    requires (f / 0x80_0000) % 256 == 255
    ensures if f % 0x80_0000 == 0 then IsInfinite(SingleToDouble(f)) else IsNaN(SingleToDouble(f))
    ensures SingleToDouble(f) / 0x8000_0000_0000_0000 == f / 0x8000_0000
  {
    var frac := f % 0x80_0000;
    var quiet := if frac < 0x40_0000 then frac + 0x40_0000 else frac;
    DoubleParts(f / 0x8000_0000, 2047, if frac == 0 then 0 else quiet * 0x2000_0000);
  }
}
