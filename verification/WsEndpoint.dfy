/** One endpoint of a WebSocket connection: what it writes, the close handshake (RFC 6455 sections 5.5.1
    and 7.4), and what holds over every run of its operations. */
module WsEndpoint {
  import opened ByteStrings
  import opened Decimals
  import opened Utf8
  import opened WsFrames
  import opened WsMessages

  const CLOSE_NORMAL: uint16 := 1000

  datatype WsError = NetClosed | ControlTooLong | ReadFailed | ProtocolFailed(violation: Violation)

  // What a written frame says, apart from its mask.
  datatype Sent = Sent(opcode: Opcode, payload: Bytes)

  // `log` is everything written so far and `netCloses` counts the closes of the transport.
  datatype Side = Side(log: seq<Sent>, closed: bool, closeSent: bool, netCloses: nat)

  const FRESH := Side([], false, false, 0)

  // ---------- writing ----------

  function WriteError(s: Side, opcode: Opcode, payload: Bytes): Option<WsError> {
    if s.closed then Some(NetClosed)
    else if IsControlOpcode(opcode) && |payload| > 125 then Some(ControlTooLong)
    else None
  }

  function Written(s: Side, opcode: Opcode, payload: Bytes): Side {
    if WriteError(s, opcode, payload).Some? then s else s.(log := s.log + [Sent(opcode, payload)])
  }

  // ---------- closing ----------

  function ClosePayload(code: int, reason: Bytes): Bytes {
    BigEndian(2, code % 0x1_0000) + reason
  }

  // The Close frame an endpoint still has to send, if any, is written before the transport is closed.
  function ClosedWith(s: Side, code: int, reason: Bytes): Side {
    if s.closed then s
    else
      var w := if s.closeSent then s else Written(s.(closeSent := true), OP_CLOSE, ClosePayload(code, reason));
      Shut(w)
  }

  function CloseError(s: Side, code: int, reason: Bytes): Option<WsError> {
    if s.closed then Some(NetClosed)
    else if s.closeSent then None
    else WriteError(s, OP_CLOSE, ClosePayload(code, reason))
  }

  function Shut(s: Side): Side {
    if s.closed then s else s.(closed := true, netCloses := s.netCloses + 1)
  }

  predicate ValidCloseCode(code: uint16) {
    1000 <= code <= 1003 || 1007 <= code <= 1014 || 3000 <= code <= 4999
  }

  function CloseCode(payload: Bytes): uint16
    requires |payload| >= 2
  {
    FromBigEndianBound(payload[..2]);
    Pow256Widths();
    FromBigEndian(payload[..2])
  }

  // Why a close payload is not valid.
  function CloseFault(payload: Bytes): Option<Bytes> {
    if payload == [] then None
    else if |payload| == 1 then Some(Ascii("close payload must not be 1 byte"))
    else if !ValidCloseCode(CloseCode(payload)) then Some(Ascii("invalid close code ") + Decimal(CloseCode(payload)))
    else if |payload| > 2 && !ValidUtf8(payload[2..]) then Some(Ascii("close reason is not valid UTF-8"))
    else None
  }

  // What HandleCloseFrame passes on to CloseWithCode.
  function ReplyCode(payload: Bytes): uint16 {
    if CloseFault(payload).Some? then CLOSE_PROTOCOL_ERROR
    else if |payload| >= 2 then CloseCode(payload)
    else CLOSE_NORMAL
  }

  function ReplyReason(payload: Bytes): Bytes {
    if CloseFault(payload).Some? then CloseFault(payload).value
    else if |payload| >= 2 then payload[2..]
    else []
  }

  function Answered(s: Side, payload: Bytes): Side {
    ClosedWith(s, ReplyCode(payload), ReplyReason(payload))
  }

  // ---------- reading ----------

  function Pongs(payloads: seq<Bytes>): seq<Sent> {
    if payloads == [] then [] else [Sent(OP_PONG, payloads[0])] + Pongs(payloads[1..])
  }

  // The effect of a ReadMessage on the endpoint.
  function AfterRead(s: Side, r: ReadResult): Side {
    var answered := s.(log := s.log + Pongs(r.pongs));
    if r.outcome.Failed? then ClosedWith(answered, r.outcome.violation.code, Ascii(r.outcome.violation.reason))
    else answered
  }

  // ---------- runs ----------

  datatype Operation =
    | Write(opcode: Opcode, payload: Bytes)
    | AnswerClose(payload: Bytes)
    | CloseWithCode(code: int, reason: Bytes)
    | Close
    | Read(input: Bytes)  // ReadMessage when these bytes are what arrives

  function Apply(client: bool, s: Side, op: Operation): Side {
    match op
    case Write(opcode, payload) => Written(s, opcode, payload)
    case AnswerClose(payload) => Answered(s, payload)
    case CloseWithCode(code, reason) => ClosedWith(s, code, reason)
    case Close => Shut(s)
    case Read(input) => AfterRead(s, Receive(client, s.closed, Idle, input))
  }

  function Run(client: bool, s: Side, ops: seq<Operation>): Side
    decreases ops
  {
    if ops == [] then s else Run(client, Apply(client, s, ops[0]), ops[1..])
  }

  function CloseFrames(log: seq<Sent>): nat {
    if log == [] then 0 else CloseFrames(log[..|log| - 1]) + if log[|log| - 1].opcode == OP_CLOSE then 1 else 0
  }

  // The Close frames a caller wrote directly.
  function CloseWrites(ops: seq<Operation>): nat {
    if ops == [] then 0 else CloseWrite(ops[0]) + CloseWrites(ops[1..])
  }

  function CloseWrite(op: Operation): nat {
    if op.Write? && op.opcode == OP_CLOSE then 1 else 0
  }

  ghost predicate ControlIsShort(log: seq<Sent>) {
    forall i | 0 <= i < |log| && IsControlOpcode(log[i].opcode) :: |log[i].payload| <= 125
  }

  // What every reachable state satisfies.
  ghost predicate Sane(s: Side, closeWrites: nat) {
    && s.netCloses == (if s.closed then 1 else 0)
    && (s.closeSent ==> s.closed)
    && CloseFrames(s.log) <= closeWrites + (if s.closeSent then 1 else 0)
    && ControlIsShort(s.log)
  }

  // No pong is longer than 125 bytes, and a closed endpoint writes none.
  ghost predicate ShortPongs(closed: bool, pongs: seq<Bytes>) {
    (forall i | 0 <= i < |pongs| :: |pongs[i]| <= 125) && (closed ==> pongs == [])
  }

  lemma {:induction false} PongsAreShort(client: bool, closed: bool, st: Assembly, s: Bytes)
    ensures ShortPongs(closed, Receive(client, closed, st, s).pongs)
    decreases |s|
  {
    var r := ReadFrame(client, st, s);
    if r.GotFrame? {
      ReadFrameIsLegal(client, st, s);
      var step := Handle(closed, st, r.frame);
      if step.Continue? {
        PongsAreShort(client, closed, step.st, r.rest);
        assert Receive(client, closed, st, s).pongs == step.pongs + Receive(client, closed, step.st, r.rest).pongs;
      }
    }
  }

  lemma {:induction false} PongsAppend(log: seq<Sent>, payloads: seq<Bytes>)
    requires ShortPongs(false, payloads) && ControlIsShort(log)
    ensures CloseFrames(log + Pongs(payloads)) == CloseFrames(log) && ControlIsShort(log + Pongs(payloads))
    decreases payloads
  {
    if payloads == [] {
      assert log + [] == log;
    } else {
      PongAppend(log, payloads[0]);
      PongsAppend(log + [Sent(OP_PONG, payloads[0])], payloads[1..]);
      Rejoin(log, [Sent(OP_PONG, payloads[0])], Pongs(payloads[1..]));
    }
  }

  lemma PongAppend(log: seq<Sent>, payload: Bytes)
    requires |payload| <= 125 && ControlIsShort(log)
    ensures CloseFrames(log + [Sent(OP_PONG, payload)]) == CloseFrames(log)
    ensures ControlIsShort(log + [Sent(OP_PONG, payload)])
  {
    var more := log + [Sent(OP_PONG, payload)];
    assert more[..|more| - 1] == log;
  }

  lemma WrittenIsSane(s: Side, opcode: Opcode, payload: Bytes, closeWrites: nat)
    requires Sane(s, closeWrites)
    ensures Sane(Written(s, opcode, payload), closeWrites + if opcode == OP_CLOSE then 1 else 0)
  {
    var w := Written(s, opcode, payload);
    if w != s {
      assert w.log[..|w.log| - 1] == s.log;
    }
  }

  lemma ClosedWithIsSane(s: Side, code: int, reason: Bytes, closeWrites: nat)
    requires Sane(s, closeWrites)
    ensures Sane(ClosedWith(s, code, reason), closeWrites)
  {
    if !s.closed {
      WrittenIsSane(s, OP_CLOSE, ClosePayload(code, reason), closeWrites);
    }
  }

  lemma AfterReadIsSane(s: Side, r: ReadResult, closeWrites: nat)
    requires Sane(s, closeWrites) && ShortPongs(s.closed, r.pongs)
    ensures Sane(AfterRead(s, r), closeWrites)
  {
    PongsAppend(s.log, r.pongs);
    if r.outcome.Failed? {
      var answered := s.(log := s.log + Pongs(r.pongs));
      ClosedWithIsSane(answered, r.outcome.violation.code, Ascii(r.outcome.violation.reason), closeWrites);
    }
  }

  lemma ApplyIsSane(client: bool, s: Side, op: Operation, closeWrites: nat)
    requires Sane(s, closeWrites)
    ensures Sane(Apply(client, s, op), closeWrites + CloseWrite(op))
  {
    match op
    case Write(opcode, payload) => WrittenIsSane(s, opcode, payload, closeWrites);
    case AnswerClose(payload) => ClosedWithIsSane(s, ReplyCode(payload), ReplyReason(payload), closeWrites);
    case CloseWithCode(code, reason) => ClosedWithIsSane(s, code, reason, closeWrites);
    case Close =>
    case Read(input) =>
      PongsAreShort(client, s.closed, Idle, input);
      AfterReadIsSane(s, Receive(client, s.closed, Idle, input), closeWrites);
  }

  lemma {:induction false} RunIsSane(client: bool, s: Side, ops: seq<Operation>, closeWrites: nat)
    requires Sane(s, closeWrites)
    ensures Sane(Run(client, s, ops), closeWrites + CloseWrites(ops))
    decreases ops
  {
    if ops != [] {
      ApplyIsSane(client, s, ops[0], closeWrites);
      RunIsSane(client, Apply(client, s, ops[0]), ops[1..], closeWrites + CloseWrite(ops[0]));
    }
  }

  // Main result: over every run the transport is closed at most once, there is at most one Close frame
  // more than the caller wrote by hand (none before the transport is closed), and no control frame is
  // ever over 125 bytes.
  lemma CloseHandshake(client: bool, ops: seq<Operation>)
    ensures var s := Run(client, FRESH, ops);
            && s.netCloses == (if s.closed then 1 else 0)
            && CloseFrames(s.log) <= CloseWrites(ops) + 1
            && (!s.closed ==> CloseFrames(s.log) <= CloseWrites(ops))
            && ControlIsShort(s.log)
  {
    RunIsSane(client, FRESH, ops, 0);
  }

  // Once closed, nothing more is written and the transport is not closed again, whatever happens.
  lemma {:induction false} ClosedStaysSilent(client: bool, s: Side, ops: seq<Operation>)
    requires s.closed
    ensures Run(client, s, ops) == s
    decreases ops
  {
    if ops != [] {
      if ops[0].Read? {
        PongsAreShort(client, true, Idle, ops[0].input);
        assert s.log + [] == s.log;
      }
      assert Apply(client, s, ops[0]) == s;
      ClosedStaysSilent(client, s, ops[1..]);
    }
  }

  // ---------- the reply to a Close frame ----------

  lemma {:induction false} DecimalIsShort(n: nat, digits: nat, limit: nat)
    requires digits >= 1 && limit == Pow10(digits) && n < limit
    ensures |Decimal(n)| <= digits
  {
    if n >= 10 {
      DecimalIsShort(n / 10, digits - 1, Pow10(digits - 1));
    }
  }

  // The codes that may be in a Close frame: section 7.4 of RFC 6455, and up to 1014 as assigned since.
  predicate IsAllowed(code: int) {
    1000 <= code <= 4999 && !(1004 <= code <= 1006) && !(1015 <= code <= 2999)
  }

  // The code a close payload of two bytes or more starts with.
  function Code(payload: Bytes): nat
    requires |payload| >= 2
  {
    payload[0] as int * 256 + payload[1]
  }

  ghost predicate Complains(reply: Bytes, reason: Bytes) {
    reply == [0x03, 0xEA] + reason && |reply| <= 125
  }

  ghost predicate NamesCode(fault: Bytes, code: nat) {
    exists d :: IsNumeral(d, code) && fault == Ascii("invalid close code ") + d
  }

  // What the reply to a close payload has to be: 1000 if it is empty, 1002 and what is wrong with it, or
  // else the same payload.
  ghost predicate IsReply(reply: Bytes, payload: Bytes) {
    if payload == [] then reply == [0x03, 0xE8]
    else if |payload| == 1 then Complains(reply, Ascii("close payload must not be 1 byte"))
    else if !IsAllowed(Code(payload)) then
      exists fault :: NamesCode(fault, Code(payload)) && Complains(reply, fault)
    else if !IsText(payload[2..]) then Complains(reply, Ascii("close reason is not valid UTF-8"))
    else reply == payload
  }

  lemma CodeIsRead(payload: Bytes)
    requires |payload| >= 2
    ensures CloseCode(payload) == Code(payload) && (ValidCloseCode(CloseCode(payload)) <==> IsAllowed(Code(payload)))
  {
    var b := payload[..2];
    assert b[..1] == [b[0]] && b[..1][..0] == [];
    assert FromBigEndian(b[..1]) == b[0];
  }

  lemma CodeIsWritten(reason: Bytes)
    ensures ClosePayload(1000, reason) == [0x03, 0xE8] + reason && ClosePayload(1002, reason) == [0x03, 0xEA] + reason
  {
    TwoBytesOf(1000, 0x03, 0xE8);
    TwoBytesOf(1002, 0x03, 0xEA);
  }

  lemma TwoBytesOf(v: nat, high: byte, low: byte)
    requires v == high * 256 + low
    ensures BigEndian(2, v) == [high, low]
  {
    assert BigEndian(1, v / 256) == BigEndian(0, high / 256) + [high];
    assert BigEndian(0, high / 256) == [];
  }

  // The reply in terms of the fault that is found.
  ghost predicate FitsFault(reply: Bytes, payload: Bytes) {
    && |reply| <= 125
    && reply == if CloseFault(payload).Some? then ClosePayload(1002, CloseFault(payload).value)
                else if payload == [] then ClosePayload(1000, [])
                else payload
  }

  lemma ReplyFitsFault(payload: Bytes)
    requires |payload| <= 125
    ensures FitsFault(ClosePayload(ReplyCode(payload), ReplyReason(payload)), payload)
  {
    if CloseFault(payload).Some? {
      FaultIsShort(payload);
    } else if payload != [] {
      EchoIsPayload(payload);
    }
  }

  // Main result: the reply to any close payload, code by code.
  lemma ReplyPayload(payload: Bytes)
    requires |payload| <= 125
    ensures IsReply(ClosePayload(ReplyCode(payload), ReplyReason(payload)), payload)
  {
    ReplyFitsFault(payload);
    if CloseFault(payload).Some? {
      CodeIsWritten(CloseFault(payload).value);
      if |payload| >= 2 {
        FaultOfCode(payload);
      }
    } else if payload == [] {
      CodeIsWritten([]);
    } else {
      CodeIsRead(payload);
      ReasonIsText(payload);
    }
  }

  lemma FaultOfCode(payload: Bytes)
    requires |payload| >= 2 && CloseFault(payload).Some?
    ensures if IsAllowed(Code(payload)) then
              !IsText(payload[2..]) && CloseFault(payload).value == Ascii("close reason is not valid UTF-8")
            else NamesCode(CloseFault(payload).value, Code(payload))
  {
    CodeIsRead(payload);
    ValidUtf8Iff(payload[2..]);
    DecimalIsNumeral(CloseCode(payload));
  }

  lemma ReasonIsText(payload: Bytes)
    requires |payload| >= 2 && CloseFault(payload).None?
    ensures IsText(payload[2..])
  {
    if |payload| == 2 {
      assert payload[2..] == [];
    }
    ValidUtf8Iff(payload[2..]);
  }

  // A payload with this code and a readable reason is echoed if and only if the code is allowed; otherwise the
  // reply has the code 1002.
  lemma EchoedIffAllowed(code: uint16, reason: Bytes)
    requires |reason| <= 123 && IsText(reason)
    ensures var payload := ClosePayload(code, reason);
            var reply := ClosePayload(ReplyCode(payload), ReplyReason(payload));
            && (reply == payload <==> 1000 <= code <= 1003 || 1007 <= code <= 1014 || 3000 <= code <= 4999)
            && (reply != payload ==> |reply| >= 2 && Code(reply) == 1002)
  {
    var payload := ClosePayload(code, reason);
    TwoBytesOf(code, code / 256, code % 256);
    assert payload[2..] == reason && Code(payload) == code;
    ReplyPayload(payload);
  }

  lemma FaultIsShort(payload: Bytes)
    requires CloseFault(payload).Some?
    ensures |CloseFault(payload).value| <= 123
  {
    if |payload| >= 2 {
      DecimalIsShort(CloseCode(payload), 5, 100000);
    }
  }

  lemma EchoIsPayload(payload: Bytes)
    requires |payload| >= 2
    ensures ClosePayload(CloseCode(payload), payload[2..]) == payload
  {
    ToBigEndian(payload[..2]);
    assert payload[..2] + payload[2..] == payload;
  }

  lemma {:induction false} AsciiIsUtf8(b: Bytes)
    requires forall i | 0 <= i < |b| :: b[i] < 0x80
    ensures ValidUtf8(b)
    decreases |b|
  {
    if b != [] {
      assert CharWidth(b) == 1;
      AsciiIsUtf8(b[1..]);
    }
  }

  lemma {:induction false} DecimalIsAscii(n: nat)
    ensures forall i | 0 <= i < |Decimal(n)| :: Decimal(n)[i] < 0x80
  {
    if n >= 10 {
      DecimalIsAscii(n / 10);
    }
  }

  // A reply is itself a valid close payload, so the peer will not find fault with it.
  lemma ReplyIsValid(payload: Bytes)
    requires |payload| <= 125
    ensures CloseFault(ClosePayload(ReplyCode(payload), ReplyReason(payload))) == None
  {
    ReplyFitsFault(payload);
    if CloseFault(payload).Some? {
      FaultIsAscii(payload);
      ClosePayloadIsValid(1002, CloseFault(payload).value);
    } else if payload == [] {
      ClosePayloadIsValid(1000, []);
    }
  }

  lemma FaultIsAscii(payload: Bytes)
    requires CloseFault(payload).Some?
    ensures ValidUtf8(CloseFault(payload).value)
  {
    if |payload| >= 2 {
      DecimalIsAscii(CloseCode(payload));
    }
    AsciiIsUtf8(CloseFault(payload).value);
  }

  lemma ClosePayloadIsValid(code: uint16, reason: Bytes)
    requires ValidCloseCode(code) && ValidUtf8(reason)
    ensures CloseFault(ClosePayload(code, reason)) == None
  {
    BigEndian16Reads(code);
    AfterTwo(BigEndian(2, code), reason);
    NoFault(ClosePayload(code, reason), code, reason);
  }

  lemma NoFault(payload: Bytes, code: uint16, reason: Bytes)
    requires |payload| >= 2 && payload[2..] == reason && CloseCode(payload) == code && ValidCloseCode(code) && ValidUtf8(reason)
    ensures CloseFault(payload) == None
  {}

  lemma AfterTwo(front: Bytes, rest: Bytes)
    requires |front| == 2
    ensures (front + rest)[..2] == front && (front + rest)[2..] == rest
  {}

  // Main result: on an open endpoint that reads a Close frame off the wire, HandleCloseFrame answers
  // with one Close frame of at most 125 bytes and closes the transport.
  lemma CloseIsAnswered(client: bool, s: Side, input: Bytes)
    requires !s.closed && !s.closeSent
    requires Receive(client, false, Idle, input).outcome.Delivered?
    requires Receive(client, false, Idle, input).outcome.opcode == OP_CLOSE
    ensures var payload := Receive(client, false, Idle, input).outcome.payload;
            var read := Apply(client, s, Read(input));
            var reply := ClosePayload(ReplyCode(payload), ReplyReason(payload));
            && |payload| <= 125 && IsReply(reply, payload) && CloseFault(reply) == None
            && Apply(client, read, AnswerClose(payload))
               == Side(read.log + [Sent(OP_CLOSE, reply)], true, true, s.netCloses + 1)
  {
    var payload := Receive(client, false, Idle, input).outcome.payload;
    DeliveredCloseIsShort(client, false, input);
    ReplyPayload(payload);
    ReplyFitsFault(payload);
    ReplyIsValid(payload);
    AnswerCloses(AfterRead(s, Receive(client, false, Idle, input)), payload);
  }

  // What can be wrong with the input: 1009 for too much data, 1002 for all else.
  lemma {:induction false} FailureIsCoded(client: bool, closed: bool, st: Assembly, input: Bytes)
    requires Receive(client, closed, st, input).outcome.Failed?
    ensures var v := Receive(client, closed, st, input).outcome.violation;
            (v == TOO_BIG || v.code == 1002) && TOO_BIG.code == 1009 && |v.reason| <= 123
    decreases |input|
  {
    var r := ReadFrame(client, st, input);
    if r.FrameBad? {
      ViolationCodes(client, st, input);
    } else if r.GotFrame? {
      var step := Handle(closed, st, r.frame);
      if step.Continue? {
        FailureIsCoded(client, closed, step.st, r.rest);
      }
    }
  }

  // A violation on an open endpoint is answered with a Close frame of its code, behind the pongs that were due, and
  // the transport is closed.
  lemma ViolationIsAnswered(client: bool, s: Side, input: Bytes)
    requires !s.closed && !s.closeSent && Receive(client, false, Idle, input).outcome.Failed?
    ensures var r := Receive(client, false, Idle, input);
            var reply := ClosePayload(r.outcome.violation.code, Ascii(r.outcome.violation.reason));
            && Code(reply) in {1002, 1009} && (Code(reply) == 1009 <==> r.outcome.violation == TOO_BIG)
            && Apply(client, s, Read(input)) == Side(s.log + Pongs(r.pongs) + [Sent(OP_CLOSE, reply)], true, true, s.netCloses + 1)
  {
    var r := Receive(client, false, Idle, input);
    FailureIsCoded(client, false, Idle, input);
    ViolationCode(r.outcome.violation.code, Ascii(r.outcome.violation.reason));
    OpenCloses(s.(log := s.log + Pongs(r.pongs)), r.outcome.violation.code, Ascii(r.outcome.violation.reason));
  }

  lemma ViolationCode(code: uint16, reason: Bytes)
    requires code == 1002 || code == 1009
    ensures Code(ClosePayload(code, reason)) == code
  {
    TwoBytesOf(code, 0x03, code - 0x300);
  }

  lemma OpenCloses(s: Side, code: uint16, reason: Bytes)
    requires !s.closed && !s.closeSent && |reason| <= 123
    ensures ClosedWith(s, code, reason) == Side(s.log + [Sent(OP_CLOSE, ClosePayload(code, reason))], true, true, s.netCloses + 1)
  {}

  lemma AnswerCloses(s: Side, payload: Bytes)
    requires !s.closed && !s.closeSent
    ensures var reply := ClosePayload(ReplyCode(payload), ReplyReason(payload));
            |reply| <= 125 ==> Answered(s, payload) == Side(s.log + [Sent(OP_CLOSE, reply)], true, true, s.netCloses + 1)
  {}

  lemma DeliveredCloseIsShort(client: bool, closed: bool, input: Bytes)
    requires var o := Receive(client, closed, Idle, input).outcome; o.Delivered? && o.opcode == OP_CLOSE
    ensures |Receive(client, closed, Idle, input).outcome.payload| <= 125
  {
    assert AssemblyOf([]) == Idle;
    var frames := ReadIsSound(client, closed, [], input);
    CloseComesLast(client, frames);
  }

  // Only a Close frame makes the reader deliver OP_CLOSE.
  lemma CloseComesLast(client: bool, frames: seq<Frame>)
    requires LegalMessage(client, frames) && Message([], frames).Delivered? && Message([], frames).opcode == OP_CLOSE
    ensures frames[|frames| - 1].opcode == OP_CLOSE && |frames[|frames| - 1].payload| <= 125
  {
    DataIsNotControl(frames);
    assert [] + DataFrames(frames) == DataFrames(frames);
    assert LegalFrame(client, frames[|frames| - 1]);
  }

  lemma {:induction false} DataIsNotControl(frames: seq<Frame>)
    ensures forall i | 0 <= i < |DataFrames(frames)| :: !IsControlOpcode(DataFrames(frames)[i].opcode)
  {
    if frames != [] {
      DataIsNotControl(frames[1..]);
    }
  }
}
