/** Well-formed UTF-8 as unicode/utf8 accepts it: no overlong forms, no surrogates, nothing above U+10FFFF. */
module Utf8 {
  import opened ByteStrings

  predicate IsContinuation(b: byte) {
    0x80 <= b <= 0xBF
  }

  // The length of the well-formed character that s starts with, or 0.
  function CharWidth(s: Bytes): (n: nat)
    ensures n <= |s| && n <= 4
  {
    if s == [] then 0
    else if s[0] < 0x80 then 1
    else if 0xC2 <= s[0] <= 0xDF && |s| >= 2 && IsContinuation(s[1]) then 2
    else if 0xE0 <= s[0] <= 0xEF && |s| >= 3 && IsContinuation(s[1]) && IsContinuation(s[2])
            && (s[0] == 0xE0 ==> s[1] >= 0xA0) && (s[0] == 0xED ==> s[1] <= 0x9F) then 3
    else if 0xF0 <= s[0] <= 0xF4 && |s| >= 4
            && IsContinuation(s[1]) && IsContinuation(s[2]) && IsContinuation(s[3])
            && (s[0] == 0xF0 ==> s[1] >= 0x90) && (s[0] == 0xF4 ==> s[1] <= 0x8F) then 4
    else 0
  }

  predicate ValidUtf8(s: Bytes)
    decreases |s|
  {
    s == [] || (CharWidth(s) > 0 && ValidUtf8(s[CharWidth(s)..]))
  }

  // ---------- the encoding of characters ----------

  // A Unicode scalar value.
  type Scalar = c: int | 0 <= c < 0xD800 || 0xE000 <= c < 0x11_0000 witness 0

  // RFC 3629 section 3.
  function Rune(c: Scalar): (r: Bytes)
    ensures 1 <= |r| <= 4
  {
    if c < 0x80 then [c]
    else if c < 0x800 then [0xC0 + c / 0x40, 0x80 + c % 0x40]
    else if c < 0x1_0000 then [0xE0 + c / 0x1000, 0x80 + (c / 0x40) % 0x40, 0x80 + c % 0x40]
    else [0xF0 + c / 0x4_0000, 0x80 + (c / 0x1000) % 0x40, 0x80 + (c / 0x40) % 0x40, 0x80 + c % 0x40]
  }

  function Text(chars: seq<Scalar>): Bytes {
    if chars == [] then [] else Rune(chars[0]) + Text(chars[1..])
  }

  ghost predicate IsText(s: Bytes) {
    exists chars :: Text(chars) == s
  }

  lemma RuneIsChar(c: Scalar, s: Bytes)
    requires Rune(c) <= s
    ensures CharWidth(s) == |Rune(c)|
  {
    assert forall i | 0 <= i < |Rune(c)| :: s[i] == Rune(c)[i];
  }

  // The character a well-formed sequence starts with.
  lemma CharIsRune(s: Bytes) returns (c: Scalar)
    requires CharWidth(s) > 0
    ensures Rune(c) == s[..CharWidth(s)]
  {
    var n := CharWidth(s);
    if n == 1 {
      c := s[0];
    } else if n == 2 {
      c := TwoByteRune(s[0], s[1]);
    } else if n == 3 {
      c := ThreeByteRune(s[0], s[1], s[2]);
    } else {
      c := FourByteRune(s[0], s[1], s[2], s[3]);
    }
  }

  lemma TwoByteRune(a: byte, b: byte) returns (c: Scalar)
    requires 0xC2 <= a <= 0xDF && IsContinuation(b)
    ensures Rune(c) == [a, b]
  {
    c := (a - 0xC0) * 0x40 + (b - 0x80);
  }

  lemma ThreeByteRune(a: byte, b: byte, d: byte) returns (c: Scalar)
    requires 0xE0 <= a <= 0xEF && IsContinuation(b) && IsContinuation(d)
    requires (a == 0xE0 ==> b >= 0xA0) && (a == 0xED ==> b <= 0x9F)
    ensures Rune(c) == [a, b, d]
  {
    var x := (a - 0xE0) * 0x40 + (b - 0x80);
    SixBits(x, d - 0x80);
    SixBits(a - 0xE0, b - 0x80);
    c := x * 0x40 + (d - 0x80);
    Nested(c);
  }

  lemma FourByteRune(a: byte, b: byte, d: byte, e: byte) returns (c: Scalar)
    requires 0xF0 <= a <= 0xF4 && IsContinuation(b) && IsContinuation(d) && IsContinuation(e)
    requires (a == 0xF0 ==> b >= 0x90) && (a == 0xF4 ==> b <= 0x8F)
    ensures Rune(c) == [a, b, d, e]
  {
    var y := (a - 0xF0) * 0x40 + (b - 0x80);
    var x := y * 0x40 + (d - 0x80);
    SixBits(x, e - 0x80);
    SixBits(y, d - 0x80);
    SixBits(a - 0xF0, b - 0x80);
    c := x * 0x40 + (e - 0x80);
    Nested(c);
    assert 0x1_0000 <= c < 0x11_0000;
  }

  lemma SixBits(high: nat, low: nat)
    requires low < 0x40
    ensures (high * 0x40 + low) / 0x40 == high && (high * 0x40 + low) % 0x40 == low
  {}

  lemma Nested(c: nat)
    ensures c / 0x1000 == (c / 0x40) / 0x40 && c / 0x4_0000 == ((c / 0x40) / 0x40) / 0x40
  {}

  lemma {:induction false} TextIsValid(chars: seq<Scalar>)
    ensures ValidUtf8(Text(chars))
  {
    if chars != [] {
      var s := Text(chars);
      TextIsValid(chars[1..]);
      RuneIsChar(chars[0], s);
      assert s[CharWidth(s)..] == Text(chars[1..]);
    }
  }

  lemma {:induction false} ValidIsText(s: Bytes) returns (chars: seq<Scalar>)
    requires ValidUtf8(s)
    ensures Text(chars) == s
    decreases |s|
  {
    chars := [];
    if s != [] {
      var tail := s[CharWidth(s)..];
      var first := CharIsRune(s);
      var more := ValidIsText(tail);
      chars := [first] + more;
      TextInFront(first, more, chars);
      assert s == s[..CharWidth(s)] + tail;
    }
  }

  lemma TextInFront(first: Scalar, more: seq<Scalar>, chars: seq<Scalar>)
    requires chars == [first] + more
    ensures Text(chars) == Rune(first) + Text(more)
  {
    assert chars[1..] == more;
  }

  // Main result: the table accepts exactly the encodings of sequences of scalar values.
  lemma ValidUtf8Iff(s: Bytes)
    ensures ValidUtf8(s) <==> IsText(s)
  {
    if ValidUtf8(s) {
      var chars := ValidIsText(s);
    }
    forall chars | Text(chars) == s ensures ValidUtf8(s) {
      TextIsValid(chars);
    }
  }
}
