/** Decimal numerals: strconv.FormatUint and strconv.ParseUint in base 10. */
module Decimals {
  import opened ByteStrings

  // The shortest decimal rendering of a number.
  function Decimal(n: nat): (d: Bytes)
    ensures 0 < |d| <= n + 1
  {
    if n < 10 then [48 + n] else Decimal(n / 10) + [48 + n % 10]
  }

  // The number that is written, digit by digit from the left; nothing if it exceeds 64 bits.
  function ParseUint(s: Bytes): Option<uint64> {
    if s == [] then None else ParseDigits(s, 0)
  }

  function ParseDigits(s: Bytes, sum: uint64): Option<uint64> {
    if s == [] then Some(sum)
    else if s[0] < 48 || s[0] > 57 || sum * 10 + (s[0] - 48) >= TWO_64 then None
    else ParseDigits(s[1..], sum * 10 + (s[0] - 48))
  }

  // ---------- what numerals stand for ----------

  predicate IsDigit(b: byte) {
    '0' as int <= b <= '9' as int
  }

  predicate AreDigits(d: Bytes) {
    forall i | 0 <= i < |d| :: IsDigit(d[i])
  }

  // The sum of the digits with their powers of ten.
  function DecimalValue(d: Bytes): nat
    requires AreDigits(d)
  {
    if d == [] then 0 else (d[0] - '0' as int) * Pow10(|d| - 1) + DecimalValue(d[1..])
  }

  function Pow10(n: nat): (p: nat)
    ensures p > 0
  {
    if n == 0 then 1 else 10 * Pow10(n - 1)
  }

  lemma {:induction false} DigitAppends(d: Bytes, b: byte)
    requires AreDigits(d) && IsDigit(b)
    ensures AreDigits(d + [b]) && DecimalValue(d + [b]) == 10 * DecimalValue(d) + (b - '0' as int)
  {
    var all := d + [b];
    if d == [] {
      assert all == [b] && [b][1..] == [];
    } else {
      DigitAppends(d[1..], b);
      assert all[1..] == d[1..] + [b];
      TenTimes(d[0] - '0' as int, Pow10(|d| - 1));
    }
  }

  lemma TenTimes(a: nat, p: nat)
    ensures a * (10 * p) == 10 * (a * p)
  {}

  // A numeral for n, without a zero in front.
  ghost predicate IsNumeral(d: Bytes, n: nat) {
    d != [] && AreDigits(d) && DecimalValue(d) == n && (d[0] == '0' as int ==> d == [48])
  }

  // Every number is rendered by a numeral that stands for it.
  lemma {:induction false} DecimalIsNumeral(n: nat)
    ensures IsNumeral(Decimal(n), n)
  {
    if n < 10 {
      assert Decimal(n)[1..] == [];
      assert Pow10(0) == 1;
    } else {
      DecimalIsNumeral(n / 10);
      DigitAppends(Decimal(n / 10), 48 + n % 10);
    }
  }

  // The parser takes exactly the digits of numbers of at most 64 bits.
  lemma ParseUintIff(s: Bytes, v: uint64)
    ensures ParseUint(s) == Some(v) <==> s != [] && AreDigits(s) && DecimalValue(s) == v
  {
    if s != [] {
      DigitsParse(s, 0, v);
    }
  }

  lemma {:induction false} DigitsParse(s: Bytes, sum: uint64, v: uint64)
    ensures ParseDigits(s, sum) == Some(v) <==> AreDigits(s) && sum * Pow10(|s|) + DecimalValue(s) == v
  {
    if s != [] {
      var d, tail := s[0] as int - '0' as int, s[1..];
      assert s == [s[0]] + tail;
      if IsDigit(s[0]) {
        Shifted(sum, d, Pow10(|tail|));
        assert AreDigits(s) <==> AreDigits(tail);
        if sum * 10 + d < TWO_64 {
          DigitsParse(tail, sum * 10 + d, v);
        } else if AreDigits(s) {
          Exceeds(sum * 10 + d, Pow10(|tail|));
        }
      }
    }
  }

  lemma Shifted(sum: nat, d: nat, p: nat)
    ensures sum * (10 * p) + d * p == (sum * 10 + d) * p
  {}

  lemma Exceeds(sum: nat, p: nat)
    requires p > 0
    ensures sum * p >= sum
  {}

  // What is rendered is read back.
  lemma UintRoundTrip(n: uint64)
    ensures ParseUint(Decimal(n)) == Some(n)
  {
    DecimalIsNumeral(n);
    ParseUintIff(Decimal(n), n);
  }
}
