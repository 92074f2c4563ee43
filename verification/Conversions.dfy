/** Go's conversions between integer types, and of dynamically typed values to integers. */
module Conversions {
  import opened ByteStrings
  import opened Uir

  // Conversions from a float64 pattern; their rounding is not modelled.
  datatype Floating = Floating(toInt64: uint64 -> int64, toUint64: uint64 -> uint64, toFloat32: uint64 -> uint32)

  // uint64(i)
  function Wrap(i: int): uint64 {
    i % TWO_64
  }

  // int64(u)
  function ToInt64(u: uint64): int64 {
    if u <= MAX_INT64 then u else u - TWO_64
  }

  // int32(u)
  function ToInt32(u: uint64): int32 {
    var low := u % 0x1_0000_0000;
    if low < 0x8000_0000 then low else low - 0x1_0000_0000
  }

  function AsInt64(floats: Floating, v: Value): int64 {
    match v
    case Int64(i) => i
    case Int32(i) => i
    case Int(i) => i
    case Uint64(u) => ToInt64(u)
    case Uint32(u) => u
    case Float64(bits) => floats.toInt64(bits)
    case _ => 0
  }

  function AsUint64(floats: Floating, v: Value): uint64 {
    match v
    case Uint64(u) => u
    case Uint32(u) => u
    case Int64(i) => Wrap(i)
    case Int32(i) => Wrap(i)
    case Int(i) => Wrap(i)
    case Float64(bits) => floats.toUint64(bits)
    case _ => 0
  }

  // Narrowing undoes widening, also for negative numbers.
  lemma Narrows(i: int64)
    ensures ToInt64(Wrap(i)) == i
    ensures -0x8000_0000 <= i <= 0x7FFF_FFFF ==> ToInt32(Wrap(i)) == i && ToInt32(Wrap(i) % 0x1_0000_0000) == i
  {}

  // ---------- which numbers they give ----------

  predicate IsWhole(v: Value) {
    v.Int? || v.Int32? || v.Int64? || v.Uint32? || v.Uint64?
  }

  function NumberOf(v: Value): int
    requires IsWhole(v)
  {
    match v case Int(i) => i case Int32(i) => i case Int64(i) => i case Uint32(u) => u case Uint64(u) => u
  }

  // The same number modulo m.
  predicate Congruent(a: int, b: int, m: nat)
    requires m > 0
  {
    (a - b) % m == 0
  }

  lemma AsInt64IsCongruent(floats: Floating, v: Value)
    requires IsWhole(v)
    ensures Congruent(AsInt64(floats, v), NumberOf(v), 0x1_0000_0000_0000_0000)
  {}

  lemma AsUint64IsCongruent(floats: Floating, v: Value)
    requires IsWhole(v)
    ensures Congruent(AsUint64(floats, v), NumberOf(v), 0x1_0000_0000_0000_0000)
  {}

  lemma NarrowIsCongruent(u: uint64)
    ensures Congruent(ToInt32(u), u, 0x1_0000_0000) && Congruent(u % 0x1_0000_0000, u, 0x1_0000_0000)
    ensures Congruent(ToInt64(u), u, 0x1_0000_0000_0000_0000)
  {}

  lemma CongruentBelow(a: int, b: int)
    requires Congruent(a, b, 0x1_0000_0000_0000_0000)
    ensures Congruent(a, b, 0x1_0000_0000)
  {}

  lemma CongruentTwice(a: int, b: int, c: int, m: nat)
    requires m == 0x1_0000_0000 || m == 0x1_0000_0000_0000_0000
    requires Congruent(a, b, m) && Congruent(b, c, m)
    ensures Congruent(a, c, m) && Congruent(c, a, m)
  {}

  lemma CongruentAndClose(a: int, b: int, m: int)
    requires m == 0x1_0000_0000 || m == 0x1_0000_0000_0000_0000
    requires Congruent(a, b, m) && -m < a - b < m
    ensures a == b
  {}
}
