/** The connection object: reading frames off its input, writing frames to its output, closing. */
module WsConn {
  import opened ByteStrings
  import opened WsFrames
  import opened WsMessages
  import opened WsEndpoint

  type MaskKey = m: Bytes | |m| == 4 witness [0, 0, 0, 0]

  function ShortestForm(length: nat): LengthForm {
    if length < 126 then Short else if length <= 65535 then Extended16 else Extended64
  }

  // The frame a write of this endpoint produces.
  function FrameFor(opcode: Opcode, payload: Bytes, mask: Mask): Frame {
    Frame(true, opcode, ShortestForm(|payload|), mask, payload)
  }

  ghost predicate WellWritten(client: bool, f: Frame) {
    f == FrameFor(f.opcode, f.payload, f.mask) && |f.mask| == (if client then 4 else 0)
  }

  function Plain(frames: seq<Frame>): (log: seq<Sent>)
    ensures |log| == |frames|
  {
    seq(|frames|, i requires 0 <= i < |frames| => Sent(frames[i].opcode, frames[i].payload))
  }

  lemma {:induction false} WireAppend(frames: seq<Frame>, f: Frame)
    ensures Wire(frames + [f]) == Wire(frames) + FrameBytes(f)
  {
    if frames == [] {
      assert frames + [f] == [f] && [f][1..] == [];
    } else {
      WireAppend(frames[1..], f);
      assert (frames + [f])[1..] == frames[1..] + [f];
      Rejoin(FrameBytes(frames[0]), Wire(frames[1..]), FrameBytes(f));
    }
  }

  // The state with these pongs written, and a read's result with these pongs written before it.
  function Ponged(s: Side, pongs: seq<Bytes>): Side {
    s.(log := s.log + Pongs(pongs))
  }

  function Behind(pongs: seq<Bytes>, r: ReadResult): ReadResult {
    r.(pongs := pongs + r.pongs)
  }

  // A read that ended in this way, with these pongs written and this input left.
  ghost predicate Ends(outcome: Outcome, pongs: seq<Bytes>, r: ReadResult, input: Bytes) {
    r.outcome == outcome && r.pongs == pongs && (outcome.Delivered? ==> r.rest == input)
  }

  lemma {:induction false} PongsJoin(a: seq<Bytes>, b: seq<Bytes>)
    ensures Pongs(a + b) == Pongs(a) + Pongs(b)
  {
    if a == [] {
      assert a + b == b;
    } else {
      PongsJoin(a[1..], b);
      assert (a + b)[1..] == a[1..] + b;
    }
  }

  lemma PongedTwice(s: Side, a: seq<Bytes>, b: seq<Bytes>)
    ensures Ponged(Ponged(s, a), b) == Ponged(s, a + b)
  {
    PongsJoin(a, b);
    Rejoin(s.log, Pongs(a), Pongs(b));
  }

  lemma BehindTwice(a: seq<Bytes>, b: seq<Bytes>, r: ReadResult)
    ensures Behind(a, Behind(b, r)) == Behind(a + b, r)
  {
    Rejoin(a, b, r.pongs);
  }

  lemma PlainAppend(frames: seq<Frame>, f: Frame)
    ensures Plain(frames + [f]) == Plain(frames) + [Sent(f.opcode, f.payload)]
  {}

  // XORs a payload with its key, in place.
  method MaskInPlace(payload: array<byte>, key: MaskKey)
    modifies payload
    ensures payload[..] == Masked(old(payload[..]), key)
  {
    for i := 0 to payload.Length
      invariant payload[..i] == Masked(old(payload[..]), key)[..i]
      invariant payload[i..] == old(payload[i..])
    {
      assert payload[i] == old(payload[..])[i];
      payload[i] := Xor(payload[i], key[i % 4]);
    }
  }

  class Conn {
    const client: bool
    var input: Bytes   // what the peer sends and has not been read yet
    var output: Bytes  // everything written to the transport
    var closed: bool
    var closeSent: bool
    var netCloses: nat
    ghost var sent: seq<Frame>

    constructor (client: bool, input: Bytes)
      ensures Valid() && State() == FRESH && this.client == client && this.input == input
    {
      this.client, this.input := client, input;
      output, sent := [], [];
      closed, closeSent, netCloses := false, false, 0;
    }

    // The output is made of complete frames, masked as the role demands.
    ghost predicate Valid()
      reads this
    {
      output == Wire(sent) && forall f | f in sent :: WellWritten(client, f)
    }

    ghost function State(): Side
      reads this
    {
      Side(Plain(sent), closed, closeSent, netCloses)
    }

    // ---------- writing and closing ----------

    method WriteMessage(opcode: Opcode, payload: Bytes) returns (err: Option<WsError>)
      requires Valid()
      modifies this`output, this`sent
      ensures Valid() && State() == Written(old(State()), opcode, payload)
      ensures err == WriteError(old(State()), opcode, payload)
    {
      if closed {
        return Some(NetClosed);
      }
      if IsControlOpcode(opcode) && |payload| > 125 {
        return Some(ControlTooLong);
      }
      var mask: Mask := [];
      if client {
        mask := RandomKey();
      }
      Emit(opcode, payload, mask);
      return None;
    }

    method RandomKey() returns (key: MaskKey)
    {
      key := *;
    }

    method Emit(opcode: Opcode, payload: Bytes, mask: Mask)
      requires Valid() && |mask| == if client then 4 else 0
      modifies this`output, this`sent
      ensures Valid() && Plain(sent) == old(Plain(sent)) + [Sent(opcode, payload)]
    {
      ghost var f := FrameFor(opcode, payload, mask);
      var header := Header(opcode, payload, mask);
      var outPayload := MaskedCopy(payload, mask);
      WriteOut(header, mask, outPayload);
      WireAppend(sent, f);
      PlainAppend(sent, f);
      sent := sent + [f];
    }

    // Header and mask key in one write, then the payload if there is one.
    method WriteOut(header: Bytes, mask: Bytes, payload: Bytes)
      modifies this`output
      ensures output == old(output) + (header + mask + payload)
    {
      Rejoin(output, header + mask, payload);
      output := output + (header + mask);
      if payload != [] {
        output := output + payload;
      } else {
        assert header + mask + payload == header + mask;
      }
    }

    method Header(opcode: Opcode, payload: Bytes, mask: Mask) returns (header: Bytes)
      requires |mask| == if client then 4 else 0
      ensures header == FrameHead(FrameFor(opcode, payload, mask))
    {
      header := [128 + opcode];
      var maskBit, length := if client then 128 else 0, |payload|;
      if length < 126 {
        header := header + [maskBit + length];
      } else if length <= 65535 {
        header := header + [maskBit + 126] + BigEndian(2, length);
      } else {
        header := header + [maskBit + 127] + BigEndian(8, length);
      }
    }

    method MaskedCopy(payload: Bytes, mask: Mask) returns (out: Bytes)
      ensures out == Masked(payload, mask)
    {
      if mask == [] {
        return payload;
      }
      var buffer := new byte[|payload|](i requires 0 <= i < |payload| => payload[i]);
      assert buffer[..] == payload;
      MaskInPlace(buffer, mask);
      out := buffer[..];
    }

    method CloseWithCode(code: int, reason: Bytes) returns (err: Option<WsError>)
      requires Valid()
      modifies this`output, this`sent, this`closed, this`closeSent, this`netCloses
      ensures Valid() && State() == ClosedWith(old(State()), code, reason)
      ensures err == CloseError(old(State()), code, reason)
    {
      if closed {
        return Some(NetClosed);
      }
      err := None;
      if !closeSent {
        closeSent := true;
        err := WriteMessage(OP_CLOSE, ClosePayload(code, reason));
      }
      closed := true;
      netCloses := netCloses + 1;
    }

    method Close() returns (err: Option<WsError>)
      requires Valid()
      modifies this`closed, this`netCloses
      ensures Valid() && State() == Shut(old(State())) && (err == if old(closed) then Some(NetClosed) else None)
    {
      if closed {
        return Some(NetClosed);
      }
      closed := true;
      netCloses := netCloses + 1;
      return None;
    }

    method HandleCloseFrame(payload: Bytes) returns (err: Option<WsError>)
      requires Valid()
      modifies this`output, this`sent, this`closed, this`closeSent, this`netCloses
      ensures Valid() && State() == Answered(old(State()), payload)
    {
      var fault := CloseFault(payload);
      if fault.Some? {
        err := CloseWithCode(CLOSE_PROTOCOL_ERROR, fault.value);
        return;
      }
      var code, reason := CLOSE_NORMAL, [];
      if |payload| >= 2 {
        code, reason := CloseCode(payload), payload[2..];
      }
      err := CloseWithCode(code, reason);
    }

    method Fail(violation: Violation)
      requires Valid()
      modifies this`output, this`sent, this`closed, this`closeSent, this`netCloses
      ensures Valid() && State() == ClosedWith(old(State()), violation.code, Ascii(violation.reason))
    {
      var _ := CloseWithCode(violation.code, Ascii(violation.reason));
    }

    // ---------- reading ----------

    // io.ReadFull: all n bytes, or an error with the input drained.
    method ReadFull(n: nat) returns (ok: bool, b: Bytes)
      modifies this`input
      ensures ok <==> n <= |old(input)|
      ensures ok ==> b == old(input)[..n] && input == old(input)[n..]
      ensures !ok ==> input == []
    {
      if n > |input| {
        input := [];
        return false, [];
      }
      ok, b := true, input[..n];
      input := input[n..];
    }

    // The first two bytes and the extended length.
    method NextHead() returns (h: HeadResult)
      modifies this`input
      ensures h == ReadHead(client, old(input))
      ensures h.Head? ==> input == h.rest
    {
      var ok, header := ReadFull(2);
      if !ok {
        return HeadShort;
      }
      var bad := CheckStart(client, header[0], header[1]);
      if bad.Some? {
        return HeadBad(bad.value);
      }
      var fin, opcode, masked := header[0] >= 128, header[0] % 16, header[1] >= 128;
      var payloadLen, form := header[1] % 128, Short;
      if payloadLen == 126 {
        var ok, ext := ReadFull(2);
        if !ok {
          return HeadShort;
        }
        assert ext == old(input)[2..4];
        payloadLen, form := FromBigEndian(ext), Extended16;
      } else if payloadLen == 127 {
        var ok, ext := ReadFull(8);
        if !ok {
          return HeadShort;
        }
        assert ext == old(input)[2..10];
        payloadLen, form := FromBigEndian(ext), Extended64;
        if ext[0] >= 128 {
          return HeadBad(BAD_LENGTH);
        }
      }
      return Head(fin, opcode, form, masked, payloadLen, input);
    }

    method NextFrame(st: Assembly) returns (r: FrameResult)
      modifies this`input
      ensures r == ReadFrame(client, st, old(input))
      ensures r.GotFrame? ==> input == r.rest
    {
      var h := NextHead();
      match h {
        case HeadShort => return FrameShort;
        case HeadBad(violation) => return FrameBad(violation);
        case Head(_, _, _, _, _, _) =>
      }
      r := NextBody(st, h);
    }

    // The mask key and the payload.
    method NextBody(st: Assembly, h: HeadResult) returns (r: FrameResult)
      requires h.Head? && input == h.rest
      modifies this`input
      ensures forall s | ReadHead(client, s) == h :: r == ReadFrame(client, st, s)
      ensures r.GotFrame? ==> input == r.rest
    {
      var maskKey: Bytes := [];
      if h.masked {
        var ok, key := ReadFull(4);
        if !ok {
          return FrameShort;
        }
        maskKey := key;
      }
      if TooBig(st, h.length) {
        return FrameBad(TOO_BIG);
      }
      var ok, raw := ReadFull(h.length);
      if !ok {
        return FrameShort;
      }
      assert raw == h.rest[|maskKey|..|maskKey| + h.length] && input == h.rest[|maskKey| + h.length..];
      var payload := MaskedCopy(raw, maskKey);
      return GotFrame(Frame(h.fin, h.opcode, h.form, maskKey, payload), input);
    }

    // Reads frames until a message is complete, answering pings on the way.
    method ReadMessage() returns (opcode: Opcode, payload: Bytes, err: Option<WsError>)
      requires Valid()
      modifies this
      ensures Valid() && State() == AfterRead(old(State()), Receive(client, old(closed), Idle, old(input)))
      ensures var r := Receive(client, old(closed), Idle, old(input));
              match r.outcome
              case EndOfInput => err == Some(ReadFailed)
              case Failed(violation) => err == Some(ProtocolFailed(violation))
              case PongRefused => err == Some(NetClosed)
              case Delivered(op, message) => err == None && opcode == op && payload == message && input == r.rest
    {
      var st, step := Idle, Continue(Idle, []);
      ghost var pongs: seq<Bytes> := [];
      assert State().log + Pongs([]) == State().log;
      while step.Continue?
        invariant Valid() && State() == Ponged(old(State()), pongs)
        invariant step.Continue? ==>
          Receive(client, old(closed), Idle, old(input)) == Behind(pongs, Receive(client, closed, st, input))
        invariant step.Stop? ==> Ends(step.outcome, pongs, Receive(client, old(closed), Idle, old(input)), input)
        decreases step.Continue?, |input|
      {
        step := NextStep(st);
        if step.Continue? {
          PongedTwice(old(State()), pongs, step.pongs);
          BehindTwice(pongs, step.pongs, Receive(client, closed, step.st, input));
          pongs := pongs + step.pongs;
          st := step.st;
        }
      }
      match step.outcome {
        case Failed(violation) =>
          Fail(violation);
          return 0, [], Some(ProtocolFailed(violation));
        case Delivered(op, message) => return op, message, None;
        case PongRefused => return 0, [], Some(NetClosed);
        case EndOfInput => return 0, [], Some(ReadFailed);
      }
    }

    // One round of the loop.
    method NextStep(st: Assembly) returns (step: Step)
      requires Valid()
      modifies this`input, this`output, this`sent
      ensures Valid() && State() == Ponged(old(State()), if step.Continue? then step.pongs else [])
      ensures step.Continue? ==> |input| < |old(input)|
      ensures step.Continue? ==>
        Receive(client, closed, st, old(input)) == Behind(step.pongs, Receive(client, closed, step.st, input))
      ensures step.Stop? ==> Ends(step.outcome, [], Receive(client, closed, st, old(input)), input)
    {
      assert Pongs([]) == [] && old(State()).log + [] == State().log;
      var r := NextFrame(st);
      match r {
        case FrameShort => return Stop(EndOfInput);
        case FrameBad(violation) => return Stop(Failed(violation));
        case GotFrame(f, _) =>
          ReadFrameIsLegal(client, st, old(input));
          step := Answer(st, f);
      }
    }

    // One frame: the pong for a ping is written, fragments are collected.
    method Answer(st: Assembly, f: Frame) returns (step: Step)
      requires Valid() && (IsControlOpcode(f.opcode) ==> |f.payload| <= 125)
      modifies this`output, this`sent
      ensures Valid() && step == Handle(closed, st, f)
      ensures State() == Ponged(old(State()), if step.Continue? then step.pongs else [])
    {
      assert Pongs([]) == [] && old(State()).log + [] == State().log;
      if IsControlOpcode(f.opcode) {
        if f.opcode == OP_PING {
          var refused := WriteMessage(OP_PONG, f.payload);
          if refused.Some? {
            return Stop(PongRefused);
          }
          assert Pongs([f.payload]) == [Sent(OP_PONG, f.payload)] + Pongs([]);
          return Continue(st, [f.payload]);
        }
        if f.opcode == OP_PONG {
          return Continue(st, []);
        }
        return Stop(Delivered(OP_CLOSE, f.payload));
      }
      match st {
        case Idle =>
          if f.opcode == OP_CONTINUATION {
            return Stop(Failed(STRAY_CONTINUATION));
          }
          if f.fin {
            return Stop(Delivered(f.opcode, f.payload));
          }
          return Continue(Assembling(f.opcode, f.payload), []);
        case Assembling(messageOpcode, messageBuf) =>
          if f.opcode != OP_CONTINUATION {
            return Stop(Failed(NO_CONTINUATION));
          }
          var buffer := messageBuf + f.payload;
          if f.fin {
            return Stop(Delivered(messageOpcode, buffer));
          }
          return Continue(Assembling(messageOpcode, buffer), []);
      }
    }
  }
}
