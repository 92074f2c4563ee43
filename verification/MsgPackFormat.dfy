/** The MessagePack lead bytes: how a value or a container header is written and read. */
module MsgPackFormat {
  import opened ByteStrings
  import opened Floats

  // What a lead byte and its argument announce. Floats are already widened to doubles.
  datatype Token =
    | NilToken
    | BoolToken(b: bool)
    | IntToken(i: int64)
    | UintToken(u: uint64)
    | FloatToken(bits: uint64)
    | StrToken(length: uint32)
    | BinToken(length: uint32)
    | ArrayToken(length: uint32)
    | MapToken(length: uint32)

  datatype TokenResult = NoToken | GotToken(token: Token, rest: Bytes)

  // ---------- reading ----------

  // The number of argument bytes behind a lead byte that has any, 0 for a lead byte that is not supported.
  function ArgumentWidth(lead: byte): (w: nat) {
    if lead in {0xC4, 0xCC, 0xD0, 0xD9} then 1
    else if lead in {0xC5, 0xCD, 0xD1, 0xDA, 0xDC, 0xDE} then 2
    else if lead in {0xC6, 0xCA, 0xCE, 0xD2, 0xDB, 0xDD, 0xDF} then 4
    else if lead in {0xCB, 0xCF, 0xD3} then 8
    else 0
  }

  function ArgumentToken(lead: byte, v: nat): Token
    requires ArgumentWidth(lead) > 0 && v < Pow256(ArgumentWidth(lead))
  {
    Pow256Widths();
    SignedFits(v, ArgumentWidth(lead));
    if lead <= 0xC6 then BinToken(v)
    else if lead == 0xCA then FloatToken(SingleToDouble(v))
    else if lead == 0xCB then FloatToken(v)
    else if lead <= 0xCF then UintToken(v)
    else if lead <= 0xD3 then IntToken(Signed(v, ArgumentWidth(lead)))
    else if lead <= 0xDB then StrToken(v)
    else if lead <= 0xDD then ArrayToken(v)
    else MapToken(v)
  }

  function ReadToken(s: Bytes): (r: TokenResult)
    ensures r.GotToken? ==> |r.rest| < |s|
  {
    if s == [] then NoToken
    else if s[0] <= 0x7F then GotToken(IntToken(s[0]), s[1..])
    else if s[0] <= 0x8F then GotToken(MapToken(s[0] - 0x80), s[1..])
    else if s[0] <= 0x9F then GotToken(ArrayToken(s[0] - 0x90), s[1..])
    else if s[0] <= 0xBF then GotToken(StrToken(s[0] - 0xA0), s[1..])
    else if s[0] >= 0xE0 then GotToken(IntToken(s[0] as int - 0x100), s[1..])
    else if s[0] == 0xC0 then GotToken(NilToken, s[1..])
    else if s[0] == 0xC2 || s[0] == 0xC3 then GotToken(BoolToken(s[0] == 0xC3), s[1..])
    else
      var w := ArgumentWidth(s[0]);
      if w == 0 || |s| < 1 + w then NoToken
      else
        FromBigEndianBound(s[1..1 + w]);
        GotToken(ArgumentToken(s[0], FromBigEndian(s[1..1 + w])), s[1 + w..])
  }

  // ---------- writing ----------

  function StrHead(n: nat): (b: Bytes) {
    if n <= 31 then [0xA0 + n]
    else if n <= 0xFF then [0xD9] + BigEndian(1, n)
    else if n <= 0xFFFF then [0xDA] + BigEndian(2, n)
    else [0xDB] + BigEndian(4, n)
  }

  function BinHead(n: nat): (b: Bytes) {
    if n <= 0xFF then [0xC4] + BigEndian(1, n)
    else if n <= 0xFFFF then [0xC5] + BigEndian(2, n)
    else [0xC6] + BigEndian(4, n)
  }

  function ArrayHead(n: nat): (b: Bytes) {
    if n <= 15 then [0x90 + n]
    else if n <= 0xFFFF then [0xDC] + BigEndian(2, n)
    else [0xDD] + BigEndian(4, n)
  }

  function MapHead(n: nat): (b: Bytes) {
    if n <= 15 then [0x80 + n]
    else if n <= 0xFFFF then [0xDE] + BigEndian(2, n)
    else [0xDF] + BigEndian(4, n)
  }

  function UintHead(u: uint64): (b: Bytes) {
    if u <= 127 then [u]
    else if u <= 0xFF then [0xCC] + BigEndian(1, u)
    else if u <= 0xFFFF then [0xCD] + BigEndian(2, u)
    else if u <= 0xFFFF_FFFF then [0xCE] + BigEndian(4, u)
    else [0xCF] + BigEndian(8, u)
  }

  function IntHead(v: int64): (b: Bytes) {
    Pow256Widths();
    if 0 <= v <= 127 then [v]
    else if -32 <= v <= -1 then [v + 0x100]
    else if -0x80 <= v <= 0x7F then [0xD0] + BigEndian(1, Unsigned(v, 1))
    else if -0x8000 <= v <= 0x7FFF then [0xD1] + BigEndian(2, Unsigned(v, 2))
    else if -0x8000_0000 <= v <= 0x7FFF_FFFF then [0xD2] + BigEndian(4, Unsigned(v, 4))
    else [0xD3] + BigEndian(8, Unsigned(v, 8))
  }

  // ---------- what is written is read back ----------

  // A lead byte with its argument.
  lemma ArgumentReads(lead: byte, v: nat, rest: Bytes)
    requires 0xC4 <= lead <= 0xDF && ArgumentWidth(lead) > 0 && v < Pow256(ArgumentWidth(lead))
    ensures ReadToken(([lead] + BigEndian(ArgumentWidth(lead), v)) + rest) == GotToken(ArgumentToken(lead, v), rest)
  {
    var w := ArgumentWidth(lead);
    var s := ([lead] + BigEndian(w, v)) + rest;
    BigEndianRoundTrip(w, v);
    assert s[1..1 + w] == BigEndian(w, v) && s[1 + w..] == rest;
  }

  lemma InlineReads(lead: byte, rest: Bytes)
    ensures ([lead] + rest)[1..] == rest
  {}

  lemma StrHeadReads(n: nat, rest: Bytes)
    requires n < TWO_32
    ensures ReadToken(StrHead(n) + rest) == GotToken(StrToken(n), rest)
  {
    Pow256Widths();
    if n <= 31 { InlineReads(0xA0 + n, rest); }
    else if n <= 0xFF { ArgumentReads(0xD9, n, rest); }
    else if n <= 0xFFFF { ArgumentReads(0xDA, n, rest); }
    else { ArgumentReads(0xDB, n, rest); }
  }

  lemma BinHeadReads(n: nat, rest: Bytes)
    requires n < TWO_32
    ensures ReadToken(BinHead(n) + rest) == GotToken(BinToken(n), rest)
  {
    Pow256Widths();
    if n <= 0xFF { ArgumentReads(0xC4, n, rest); }
    else if n <= 0xFFFF { ArgumentReads(0xC5, n, rest); }
    else { ArgumentReads(0xC6, n, rest); }
  }

  lemma ArrayHeadReads(n: nat, rest: Bytes)
    requires n < TWO_32
    ensures ReadToken(ArrayHead(n) + rest) == GotToken(ArrayToken(n), rest)
  {
    Pow256Widths();
    if n <= 15 { InlineReads(0x90 + n, rest); }
    else if n <= 0xFFFF { ArgumentReads(0xDC, n, rest); }
    else { ArgumentReads(0xDD, n, rest); }
  }

  lemma MapHeadReads(n: nat, rest: Bytes)
    requires n < TWO_32
    ensures ReadToken(MapHead(n) + rest) == GotToken(MapToken(n), rest)
  {
    Pow256Widths();
    if n <= 15 { InlineReads(0x80 + n, rest); }
    else if n <= 0xFFFF { ArgumentReads(0xDE, n, rest); }
    else { ArgumentReads(0xDF, n, rest); }
  }

  // Unsigned numbers up to 127 are not told apart from signed ones.
  lemma UintHeadReads(u: uint64, rest: Bytes)
    ensures ReadToken(UintHead(u) + rest) == GotToken(if u <= 127 then IntToken(u) else UintToken(u), rest)
  {
    Pow256Widths();
    if u <= 127 { InlineReads(u, rest); }
    else if u <= 0xFF { ArgumentReads(0xCC, u, rest); }
    else if u <= 0xFFFF { ArgumentReads(0xCD, u, rest); }
    else if u <= 0xFFFF_FFFF { ArgumentReads(0xCE, u, rest); }
    else { ArgumentReads(0xCF, u, rest); }
  }

  lemma SignedReads(lead: byte, v: int64, rest: Bytes)
    requires 0xD0 <= lead <= 0xD3
    requires 0 <= 2 * v + Pow256(ArgumentWidth(lead)) && 2 * v < Pow256(ArgumentWidth(lead))
    ensures var w := ArgumentWidth(lead);
            ReadToken(([lead] + BigEndian(w, Unsigned(v, w))) + rest) == GotToken(IntToken(v), rest)
  {
    ArgumentReads(lead, Unsigned(v, ArgumentWidth(lead)), rest);
  }

  lemma IntHeadReads(v: int64, rest: Bytes)
    ensures ReadToken(IntHead(v) + rest) == GotToken(IntToken(v), rest)
  {
    Pow256Widths();
    if 0 <= v <= 127 { InlineReads(v, rest); }
    else if -32 <= v <= -1 { InlineReads(v + 0x100, rest); }
    else if -0x80 <= v <= 0x7F { SignedReads(0xD0, v, rest); }
    else if -0x8000 <= v <= 0x7FFF { SignedReads(0xD1, v, rest); }
    else if -0x8000_0000 <= v <= 0x7FFF_FFFF { SignedReads(0xD2, v, rest); }
    else { SignedReads(0xD3, v, rest); }
  }

  // ---------- heads are as short as they can be ----------

  predicate HasHead(t: Token) {
    t.IntToken? || t.UintToken? || t.StrToken? || t.BinToken? || t.ArrayToken? || t.MapToken?
  }

  function HeadOf(t: Token): Bytes
    requires HasHead(t)
  {
    match t
    case IntToken(i) => IntHead(i)
    case UintToken(u) => UintHead(u)
    case StrToken(n) => StrHead(n)
    case BinToken(n) => BinHead(n)
    case ArrayToken(n) => ArrayHead(n)
    case MapToken(n) => MapHead(n)
  }

  // No bytes that announce the same are fewer than those that are written.
  lemma HeadIsShortest(s: Bytes)
    requires ReadToken(s).GotToken? && HasHead(ReadToken(s).token)
    ensures |HeadOf(ReadToken(s).token)| <= |s| - |ReadToken(s).rest|
  {
    var w := ArgumentWidth(s[0]);
    if 0xC4 <= s[0] <= 0xDF {
      FromBigEndianBound(s[1..1 + w]);
      ArgumentIsShortest(s[0], FromBigEndian(s[1..1 + w]));
    }
  }

  lemma ArgumentIsShortest(lead: byte, v: nat)
    requires 0xC4 <= lead <= 0xDF && ArgumentWidth(lead) > 0 && v < Pow256(ArgumentWidth(lead))
    requires HasHead(ArgumentToken(lead, v))
    ensures |HeadOf(ArgumentToken(lead, v))| <= 1 + ArgumentWidth(lead)
  {
    Pow256Widths();
  }
}
