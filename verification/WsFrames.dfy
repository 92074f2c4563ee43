/** WebSocket frames on the wire (RFC 6455 section 5.2) and what reading one frame does. */
module WsFrames {
  import opened Bits
  import opened ByteStrings

  type Opcode = x: int | 0 <= x < 16

  const OP_CONTINUATION: Opcode := 0x0
  const OP_TEXT: Opcode := 0x1
  const OP_BINARY: Opcode := 0x2
  const OP_CLOSE: Opcode := 0x8
  const OP_PING: Opcode := 0x9
  const OP_PONG: Opcode := 0xA

  const MAX_MESSAGE_SIZE: nat := 5 * 1024 * 1024
  const CLOSE_PROTOCOL_ERROR: uint16 := 1002

  predicate IsKnownOpcode(op: Opcode) {
    op == OP_CONTINUATION || op == OP_TEXT || op == OP_BINARY || op == OP_CLOSE || op == OP_PING || op == OP_PONG
  }

  predicate IsControlOpcode(op: Opcode) {
    op == OP_CLOSE || op == OP_PING || op == OP_PONG
  }

  // ---------- masking ----------

  function Xor(a: byte, k: byte): byte {
    Pow2Widths();
    XorBound(a, k, 8, 256);
    XorBits(a, k, 8)
  }

  lemma XorInverts(a: byte, k: byte)
    ensures Xor(Xor(a, k), k) == a
  {
    Pow2Widths();
    XorTwice(a, k, 8);
  }

  // No key, or four key bytes used round robin.
  type Mask = m: Bytes | |m| == 0 || |m| == 4

  function Masked(payload: Bytes, mask: Mask): (r: Bytes)
    ensures |r| == |payload|
    ensures forall i | 0 <= i < |payload| :: r[i] == if mask == [] then payload[i] else Xor(payload[i], mask[i % 4])
  {
    if mask == [] then payload
    else seq(|payload|, i requires 0 <= i < |payload| => Xor(payload[i], mask[i % 4]))
  }

  lemma MaskedTwice(payload: Bytes, mask: Mask)
    ensures Masked(Masked(payload, mask), mask) == payload
  {
    if mask != [] {
      forall i | 0 <= i < |payload| ensures Masked(Masked(payload, mask), mask)[i] == payload[i] {
        XorInverts(payload[i], mask[i % 4]);
      }
    }
  }

  // ---------- frames ----------

  // The three ways to write the payload length.
  datatype LengthForm = Short | Extended16 | Extended64

  // A frame without reserved bits; the payload is kept unmasked.
  datatype Frame = Frame(fin: bool, opcode: Opcode, form: LengthForm, mask: Mask, payload: Bytes)

  function Length7(form: LengthForm, length: nat): (n: nat)
    ensures n < 128
  {
    match form case Short => (if length < 126 then length else 0) case Extended16 => 126 case Extended64 => 127
  }

  function ExtendedLength(form: LengthForm, length: nat): Bytes {
    match form case Short => [] case Extended16 => BigEndian(2, length) case Extended64 => BigEndian(8, length)
  }

  // The length form can express the length (the top bit of the 64-bit form must be 0).
  predicate FormFits(form: LengthForm, length: nat) {
    match form case Short => length < 126 case Extended16 => length < 0x1_0000 case Extended64 => length <= MAX_INT64
  }

  function FrameBytes(f: Frame): (b: Bytes)
    ensures |b| >= 2
  {
    FrameHead(f) + f.mask + Masked(f.payload, f.mask)
  }

  function FirstByteOf(f: Frame): byte {
    (if f.fin then 128 else 0) + f.opcode
  }

  function SecondByteOf(f: Frame): byte {
    (if f.mask != [] then 128 else 0) + Length7(f.form, |f.payload|)
  }

  function FrameHead(f: Frame): (b: Bytes)
    ensures |b| >= 2
  {
    [FirstByteOf(f), SecondByteOf(f)] + ExtendedLength(f.form, |f.payload|)
  }

  function Wire(frames: seq<Frame>): Bytes
  {
    if frames == [] then [] else FrameBytes(frames[0]) + Wire(frames[1..])
  }

  // ---------- reading one frame ----------

  // Why the connection has to be failed.
  datatype Violation = Violation(code: uint16, reason: string)

  datatype HeadResult =
    | HeadShort
    | HeadBad(violation: Violation)
    | Head(fin: bool, opcode: Opcode, form: LengthForm, masked: bool, length: nat, rest: Bytes)

  const RSV_BITS := Violation(1002, "RSV bits must be 0 unless an extension is negotiated")
  const UNMASKED := Violation(1002, "client frames must be masked")
  const MASKED := Violation(1002, "server frames must not be masked")
  const FRAGMENTED_CONTROL := Violation(1002, "control frames must not be fragmented")
  const LONG_CONTROL := Violation(1002, "control frame payload must be <= 125 bytes")
  const BAD_LENGTH := Violation(1002, "invalid 64-bit payload length")
  const TOO_BIG := Violation(1009, "message too big")
  const STRAY_CONTINUATION := Violation(1002, "unexpected continuation frame")
  const NO_CONTINUATION := Violation(1002, "expected continuation frame (opcode 0x0) during fragmented message")

  function HexDigit(n: nat): char {
    if n < 10 then '0' + n as char else 'A' + ((n - 10) % 6) as char
  }

  function UnknownOpcode(op: Opcode): Violation {
    Violation(1002, "unknown opcode 0x" + [HexDigit(op)])
  }

  // The first two bytes; `rest` is what follows them and `length` is still the 7-bit field.
  function CheckStart(client: bool, b0: byte, b1: byte): Option<Violation> {
    var op: Opcode := b0 % 16;
    if (b0 / 16) % 8 != 0 then Some(RSV_BITS)
    else if !IsKnownOpcode(op) then Some(UnknownOpcode(op))
    else if !client && b1 < 128 then Some(UNMASKED)
    else if client && b1 >= 128 then Some(MASKED)
    else if IsControlOpcode(op) && b0 < 128 then Some(FRAGMENTED_CONTROL)
    else if IsControlOpcode(op) && b1 % 128 >= 126 then Some(LONG_CONTROL)
    else None
  }

  function ReadHead(client: bool, s: Bytes): (h: HeadResult)
    ensures h.Head? ==> |h.rest| + 2 <= |s|
  {
    if |s| < 2 then HeadShort
    else
      var bad := CheckStart(client, s[0], s[1]);
      var len7 := s[1] % 128;
      if bad.Some? then HeadBad(bad.value)
      else if len7 < 126 then Head(s[0] >= 128, s[0] % 16, Short, s[1] >= 128, len7, s[2..])
      else if len7 == 126 then
        if |s| < 4 then HeadShort
        else Head(s[0] >= 128, s[0] % 16, Extended16, s[1] >= 128, FromBigEndian(s[2..4]), s[4..])
      else
        if |s| < 10 then HeadShort
        else if s[2] >= 128 then HeadBad(BAD_LENGTH)
        else Head(s[0] >= 128, s[0] % 16, Extended64, s[1] >= 128, FromBigEndian(s[2..10]), s[10..])
  }

  // Whether a message is being assembled, from which first opcode and with what so far.
  datatype Assembly = Idle | Assembling(opcode: Opcode, buffer: Bytes)

  datatype FrameResult = FrameShort | FrameBad(violation: Violation) | GotFrame(frame: Frame, rest: Bytes)

  predicate TooBig(st: Assembly, length: nat) {
    length > MAX_MESSAGE_SIZE || (st.Assembling? && |st.buffer| + length > MAX_MESSAGE_SIZE)
  }

  function ReadFrame(client: bool, st: Assembly, s: Bytes): (r: FrameResult)
    ensures r.GotFrame? ==> |r.rest| + 2 <= |s|
  {
    var h := ReadHead(client, s);
    if h.HeadShort? then FrameShort
    else if h.HeadBad? then FrameBad(h.violation)
    else
      var keyLength := if h.masked then 4 else 0;
      if |h.rest| < keyLength then FrameShort
      else if TooBig(st, h.length) then FrameBad(TOO_BIG)
      else if |h.rest| < keyLength + h.length then FrameShort
      else
        var mask: Mask := h.rest[..keyLength];
        GotFrame(Frame(h.fin, h.opcode, h.form, mask, Masked(h.rest[keyLength..keyLength + h.length], mask)),
                 h.rest[keyLength + h.length..])
  }

  // A frame with nothing wrong but perhaps its size.
  ghost predicate WellFormed(client: bool, f: Frame) {
    && IsKnownOpcode(f.opcode)
    && (f.mask != [] <==> !client)
    && FormFits(f.form, |f.payload|)
    && (IsControlOpcode(f.opcode) ==> f.fin && f.form == Short)
  }

  // A frame the reader lets through, whatever the state of the assembly.
  ghost predicate LegalFrame(client: bool, f: Frame) {
    WellFormed(client, f) && |f.payload| <= MAX_MESSAGE_SIZE
  }

  // ---------- a legal frame is read back from its bytes, and nothing else is read ----------

  lemma HeadReads(client: bool, f: Frame, s: Bytes, rest: Bytes)
    requires WellFormed(client, f) && s == FrameHead(f) + rest
    ensures ReadHead(client, s) == Head(f.fin, f.opcode, f.form, f.mask != [], |f.payload|, rest)
  {
    StartPasses(client, f);
    LengthReads(client, FirstByteOf(f), SecondByteOf(f), f.form, |f.payload|, ExtendedLength(f.form, |f.payload|), rest, s);
  }

  lemma StartPasses(client: bool, f: Frame)
    requires WellFormed(client, f)
    ensures CheckStart(client, FirstByteOf(f), SecondByteOf(f)) == None
  {}

  lemma LengthReads(client: bool, b0: byte, b1: byte, form: LengthForm, n: nat, ext: Bytes, rest: Bytes, s: Bytes)
    requires FormFits(form, n) && b1 % 128 == Length7(form, n) && CheckStart(client, b0, b1) == None
    requires ext == ExtendedLength(form, n) && s == ([b0, b1] + ext) + rest
    ensures ReadHead(client, s) == Head(b0 >= 128, b0 % 16, form, b1 >= 128, n, rest)
  {
    BehindStart(b0, b1, ext, rest, s);
    ExtendedComesBack(form, n, ext);
  }

  lemma BehindStart(b0: byte, b1: byte, ext: Bytes, rest: Bytes, s: Bytes)
    requires s == ([b0, b1] + ext) + rest
    ensures |s| >= 2 + |ext| && s[0] == b0 && s[1] == b1 && s[2..2 + |ext|] == ext && s[2 + |ext|..] == rest
  {}

  lemma ExtendedComesBack(form: LengthForm, n: nat, ext: Bytes)
    requires FormFits(form, n) && ext == ExtendedLength(form, n)
    ensures !form.Short? ==> FromBigEndian(ext) == n
    ensures form.Extended64? ==> ext[0] < 128
  {
    Pow256Widths();
    match form {
      case Short =>
      case Extended16 => BigEndianRoundTrip(2, n);
      case Extended64 =>
        BigEndianRoundTrip(8, n);
        TopByte(ext);
    }
  }

  // Eight bytes stand for a number below 2^63 exactly if the top bit is clear.
  lemma TopByte(b: Bytes)
    requires |b| == 8
    ensures b[0] < 128 <==> FromBigEndian(b) <= MAX_INT64
  {
    FromBigEndianSplits(b);
    FromBigEndianBound(b[1..]);
    Pow256Widths();
    assert Pow256(8) == 256 * Pow256(7);
    assert Pow256(7) == 0x100_0000_0000_0000;
  }

  // The reader decodes a well-formed frame from its bytes, whatever follows, unless it is too big here.
  lemma LegalFrameReads(client: bool, st: Assembly, f: Frame, rest: Bytes)
    requires WellFormed(client, f)
    ensures ReadFrame(client, st, FrameBytes(f) + rest)
         == if TooBig(st, |f.payload|) then FrameBad(TOO_BIG) else GotFrame(f, rest)
  {
    var masked := Masked(f.payload, f.mask);
    var body := f.mask + (masked + rest);
    Regroup(FrameHead(f), f.mask, masked, rest);
    HeadReads(client, f, FrameHead(f) + body, body);
    BodyReads(f.mask, masked, rest);
    MaskedTwice(f.payload, f.mask);
    assert FrameBytes(f) + rest == FrameHead(f) + body;
  }

  lemma BodyReads(mask: Bytes, masked: Bytes, rest: Bytes)
    ensures var body, k, n := mask + (masked + rest), |mask|, |masked|;
            body[..k] == mask && body[k..k + n] == masked && body[k + n..] == rest
  {}

  // Whatever the reader accepts is a legal frame that is not too big, ...
  lemma ReadFrameIsLegal(client: bool, st: Assembly, s: Bytes)
    requires ReadFrame(client, st, s).GotFrame?
    ensures LegalFrame(client, ReadFrame(client, st, s).frame)
    ensures !TooBig(st, |ReadFrame(client, st, s).frame.payload|)
  {
    HeadIsLegal(client, s);
  }

  // ... and exactly its bytes are consumed.
  lemma ReadFrameConsumes(client: bool, st: Assembly, s: Bytes)
    requires ReadFrame(client, st, s).GotFrame?
    ensures s == FrameBytes(ReadFrame(client, st, s).frame) + ReadFrame(client, st, s).rest
  {
    var r := ReadFrame(client, st, s);
    HeadConsumes(client, st, s);
    BodyConsumes(client, st, s);
    Regroup(FrameHead(r.frame), r.frame.mask, Masked(r.frame.payload, r.frame.mask), r.rest);
  }

  lemma HeadConsumes(client: bool, st: Assembly, s: Bytes)
    requires ReadFrame(client, st, s).GotFrame?
    ensures s == FrameHead(ReadFrame(client, st, s).frame) + ReadHead(client, s).rest
  {
    HeadIsConsumed(client, s);
    assert FrameHead(ReadFrame(client, st, s).frame) == HeadBytes(ReadHead(client, s));
  }

  lemma BodyConsumes(client: bool, st: Assembly, s: Bytes)
    requires ReadFrame(client, st, s).GotFrame?
    ensures var r := ReadFrame(client, st, s);
            ReadHead(client, s).rest == r.frame.mask + (Masked(r.frame.payload, r.frame.mask) + r.rest)
  {
    var h := ReadHead(client, s);
    BodySplits(h.rest, if h.masked then 4 else 0, h.length, ReadFrame(client, st, s).frame.payload);
  }

  lemma BodySplits(body: Bytes, k: nat, n: nat, payload: Bytes)
    requires (k == 0 || k == 4) && k + n <= |body| && payload == Masked(body[k..k + n], body[..k])
    ensures body == body[..k] + (Masked(payload, body[..k]) + body[k + n..])
  {
    MaskedTwice(body[k..k + n], body[..k]);
  }

  lemma Regroup(a: Bytes, b: Bytes, c: Bytes, d: Bytes)
    ensures a + (b + (c + d)) == (a + b + c) + d
  {
    Rejoin(a + b, c, d);
    Rejoin(a, b, c + d);
  }

  // The opcode is named in hexadecimal.
  lemma OpcodeIsNamed(op: Opcode)
    ensures UnknownOpcode(op) == Violation(1002, "unknown opcode 0x" + ["0123456789ABCDEF"[op]])
  {}

  // Masking flips exactly the bits that are set in the key byte.
  lemma MaskFlipsBits(payload: Bytes, mask: Mask, i: nat, k: nat)
    requires i < |payload| && k < 8 && mask != []
    ensures Bit(Masked(payload, mask)[i], k) == if Bit(payload[i], k) != Bit(mask[i % 4], k) then 1 else 0
  {
    XorOfBits(payload[i], mask[i % 4], 8, k);
  }

  // The first two bytes are accepted exactly if the reserved bits are 0, the opcode is one of the six, the mask
  // is as the role demands, and control frames are whole and of at most 125 bytes.
  lemma StartIsLegalIff(client: bool, b0: byte, b1: byte)
    ensures CheckStart(client, b0, b1).None? <==>
              && (b0 / 16) % 8 == 0 && b0 % 16 in {0, 1, 2, 8, 9, 10} && (b1 < 128 <==> client)
              && (b0 % 16 >= 8 ==> b0 >= 128 && b1 % 128 <= 125)
  {}

  // What is wrong with the start of a frame is a protocol error, what is too long is 1009.
  lemma ViolationCodes(client: bool, st: Assembly, s: Bytes)
    requires ReadFrame(client, st, s).FrameBad?
    ensures ReadFrame(client, st, s).violation.code == if ReadHead(client, s).HeadBad? then 1002 else 1009
  {}

  lemma HeadIsLegal(client: bool, s: Bytes)
    requires ReadHead(client, s).Head?
    ensures var h := ReadHead(client, s);
            && IsKnownOpcode(h.opcode) && (h.masked <==> !client) && FormFits(h.form, h.length)
            && (IsControlOpcode(h.opcode) ==> h.fin && h.form == Short)
  {
    StartOfHead(client, s);
    LengthOfHead(client, s);
  }

  lemma LengthOfHead(client: bool, s: Bytes)
    requires ReadHead(client, s).Head?
    ensures FormFits(ReadHead(client, s).form, ReadHead(client, s).length)
  {
    match ReadHead(client, s).form {
      case Short =>
      case Extended16 => ExtendedIsLegal(s, s[2..4]);
      case Extended64 => ExtendedIsLegal(s, s[2..10]);
    }
  }

  lemma StartOfHead(client: bool, s: Bytes)
    requires ReadHead(client, s).Head?
    ensures var h := ReadHead(client, s);
            && IsKnownOpcode(h.opcode) && (h.masked <==> !client)
            && (IsControlOpcode(h.opcode) ==> h.fin && h.form == Short)
  {}

  // The bytes of a head.
  function HeadBytes(h: HeadResult): Bytes
    requires h.Head?
  {
    [(if h.fin then 128 else 0) + h.opcode, (if h.masked then 128 else 0) + Length7(h.form, h.length)]
      + ExtendedLength(h.form, h.length)
  }

  lemma HeadIsConsumed(client: bool, s: Bytes)
    requires ReadHead(client, s).Head?
    ensures s == HeadBytes(ReadHead(client, s)) + ReadHead(client, s).rest
  {
    var h := ReadHead(client, s);
    FirstByte(s[0], s[1]);
    match h.form {
      case Short =>
        InThree(s, 2);
        HeadBytesAre(h, s[0], s[1], []);
      case Extended16 =>
        ExtendedIsLegal(s, s[2..4]);
        HeadBytesAre(h, s[0], s[1], s[2..4]);
      case Extended64 =>
        ExtendedIsLegal(s, s[2..10]);
        HeadBytesAre(h, s[0], s[1], s[2..10]);
    }
  }

  lemma HeadBytesAre(h: HeadResult, b0: byte, b1: byte, ext: Bytes)
    requires h.Head? && ext == ExtendedLength(h.form, h.length)
    requires b0 == (if h.fin then 128 else 0) + h.opcode && b1 == (if h.masked then 128 else 0) + Length7(h.form, h.length)
    ensures HeadBytes(h) == [b0, b1] + ext
  {}

  lemma ExtendedIsLegal(s: Bytes, ext: Bytes)
    requires (|s| >= 4 && ext == s[2..4]) || (|s| >= 10 && ext == s[2..10])
    ensures s == ([s[0], s[1]] + ext) + s[2 + |ext|..] && BigEndian(|ext|, FromBigEndian(ext)) == ext
    ensures |ext| == 2 ==> FromBigEndian(ext) < 0x1_0000
    ensures |ext| == 8 ==> (ext[0] < 128 <==> FromBigEndian(ext) <= MAX_INT64)
  {
    Pow256Widths();
    FromBigEndianBound(ext);
    ToBigEndian(ext);
    InThree(s, 2 + |ext|);
    if |ext| == 8 {
      TopByte(ext);
    }
  }

  lemma InThree(s: Bytes, k: nat)
    requires 2 <= k <= |s|
    ensures s == ([s[0], s[1]] + s[2..k]) + s[k..]
  {}

  lemma FirstByte(b0: byte, b1: byte)
    ensures (b0 / 16) % 8 == 0 ==> b0 == (if b0 >= 128 then 128 else 0) + b0 % 16
    ensures b1 == (if b1 >= 128 then 128 else 0) + b1 % 128
  {}
}
