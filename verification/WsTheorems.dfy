/** What the reader delivers, as statements about all inputs, and what two endpoints achieve together. */
module WsTheorems {
  import opened ByteStrings
  import opened WsFrames
  import opened WsMessages
  import opened WsEndpoint
  import opened WsConn

  // The input starts with a message of legal frames.
  ghost predicate StartsWithMessage(client: bool, s: Bytes) {
    exists frames, rest :: LegalMessage(client, frames) && s == Wire(frames) + rest
  }

  // A first read on an open connection delivers something exactly if the input starts with a legal message.
  lemma DeliversExactlyMessages(client: bool, s: Bytes)
    ensures Receive(client, false, Idle, s).outcome.Delivered? <==> StartsWithMessage(client, s)
  {
    if Receive(client, false, Idle, s).outcome.Delivered? {
      var frames := ReadIsSound(client, false, [], s);
      assert LegalMessage(client, frames) && s == Wire(frames) + Receive(client, false, Idle, s).rest;
    }
    if StartsWithMessage(client, s) {
      var frames, rest :| LegalMessage(client, frames) && s == Wire(frames) + rest;
      ReadIsComplete(client, [], frames, rest);
      SomethingIsDelivered(client, frames);
    }
  }

  lemma SomethingIsDelivered(client: bool, frames: seq<Frame>)
    requires LegalMessage(client, frames)
    ensures Message([], frames).Delivered?
  {
    if frames[|frames| - 1].opcode != OP_CLOSE {
      LastIsData(frames);
    }
  }

  // An input starts with one message only: two ways to cut it into legal frames say the same.
  lemma MessagesAreUnambiguous(client: bool, a: seq<Frame>, b: seq<Frame>, rest: Bytes, rest': Bytes)
    requires LegalMessage(client, a) && LegalMessage(client, b) && Wire(a) + rest == Wire(b) + rest'
    ensures rest == rest' && Message([], a) == Message([], b) && PingPayloads(a) == PingPayloads(b)
  {
    ReadIsComplete(client, [], a, rest);
    ReadIsComplete(client, [], b, rest');
  }

  // Nothing over 5 MiB is delivered, and only as text, binary or close.
  lemma DeliveredIsBounded(client: bool, closed: bool, s: Bytes)
    requires Receive(client, closed, Idle, s).outcome.Delivered?
    ensures var o := Receive(client, closed, Idle, s).outcome;
            && o.opcode in {OP_TEXT, OP_BINARY, OP_CLOSE}
            && |o.payload| <= (if o.opcode == OP_CLOSE then 125 else 5 * 1024 * 1024)
  {
    var frames := ReadIsSound(client, closed, [], s);
    MessageIsBounded(client, frames);
  }

  lemma MessageIsBounded(client: bool, frames: seq<Frame>)
    requires LegalMessage(client, frames) && Message([], frames).Delivered?
    ensures var o := Message([], frames);
            && o.opcode in {OP_TEXT, OP_BINARY, OP_CLOSE}
            && |o.payload| <= (if o.opcode == OP_CLOSE then 125 else 5 * 1024 * 1024)
  {
    assert LegalFrame(client, frames[|frames| - 1]);
    if frames[|frames| - 1].opcode != OP_CLOSE {
      var d := DataFrames(frames);
      assert [] + d == d;
      DataFacts(client, frames);
      PayloadsAreSmall(0, frames);
    }
  }

  lemma {:induction false} DataFacts(client: bool, frames: seq<Frame>)
    requires forall f | f in frames :: LegalFrame(client, f)
    ensures forall i | 0 <= i < |DataFrames(frames)| ::
              LegalFrame(client, DataFrames(frames)[i]) && !IsControlOpcode(DataFrames(frames)[i].opcode)
  {
    if frames != [] {
      DataFacts(client, frames[1..]);
    }
  }

  lemma {:induction false} PayloadsAreSmall(total: nat, frames: seq<Frame>)
    requires StaysSmall(total, frames) && total <= MAX_MESSAGE_SIZE
    ensures total + |Payloads(DataFrames(frames))| <= MAX_MESSAGE_SIZE
    decreases frames
  {
    if frames != [] {
      var d := DataFrames(frames[1..]);
      if IsControlOpcode(frames[0].opcode) {
        PayloadsAreSmall(total, frames[1..]);
      } else {
        PayloadsAreSmall(total + |frames[0].payload|, frames[1..]);
        assert ([frames[0]] + d)[1..] == d;
      }
    }
  }

  // ---------- two endpoints ----------

  // What reading to the end gives: the messages delivered, up to a Close, and the pongs written.
  datatype Transcript = Transcript(messages: seq<Sent>, pongs: seq<Bytes>)

  function ReadAll(client: bool, s: Bytes): Transcript
    decreases |s|, 0
  {
    if s == [] then Transcript([], []) else Collected(client, Receive(client, false, Idle, s))
  }

  function Collected(client: bool, r: ReadResult): Transcript
    decreases |r.rest|, 1
  {
    if !r.outcome.Delivered? then Transcript([], r.pongs)
    else
      var more := if r.outcome.opcode == OP_CLOSE then Transcript([], []) else ReadAll(client, r.rest);
      Transcript([Sent(r.outcome.opcode, r.outcome.payload)] + more.messages, r.pongs + more.pongs)
  }

  // Frames that WriteMessage and CloseWithCode of one endpoint produce, within the peer's limits, with
  // a Close frame only at the end.
  ghost predicate Conversation(client: bool, frames: seq<Frame>) {
    && (forall f | f in frames :: WellWritten(client, f) && IsKnownOpcode(f.opcode) && f.opcode != OP_CONTINUATION)
    && (forall f | f in frames :: |f.payload| <= if IsControlOpcode(f.opcode) then 125 else MAX_MESSAGE_SIZE)
    && (forall i | 0 <= i < |frames| - 1 :: frames[i].opcode != OP_CLOSE)
  }

  function Messages(frames: seq<Frame>): seq<Sent> {
    if frames == [] then []
    else if frames[0].opcode == OP_PING || frames[0].opcode == OP_PONG then Messages(frames[1..])
    else [Sent(frames[0].opcode, frames[0].payload)] + Messages(frames[1..])
  }

  // Main result: what one endpoint writes, the other reads: the same messages in the same order with the
  // Close last, and one pong for every ping.
  lemma {:induction false} ConversationArrives(client: bool, frames: seq<Frame>)
    requires Conversation(client, frames)
    ensures ReadAll(!client, Wire(frames)) == Transcript(Messages(frames), PingPayloads(frames))
    decreases frames
  {
    if frames != [] {
      var f, tail := frames[0], frames[1..];
      FirstIsRead(client, frames, f, tail);
      assert f.opcode == OP_CLOSE ==> tail == [];
      assert forall i | 0 <= i < |tail| - 1 :: tail[i] == frames[i + 1];
      ConversationArrives(client, tail);
      if f.opcode == OP_PING || f.opcode == OP_PONG {
        ReadAllBehindControl(!client, f, Wire(frames), Wire(tail));
      } else {
        ReadAllBehindData(!client, f, Wire(frames), Wire(tail));
      }
    }
  }

  lemma FirstIsRead(client: bool, frames: seq<Frame>, f: Frame, tail: seq<Frame>)
    requires Conversation(client, frames) && frames != [] && f == frames[0] && tail == frames[1..]
    ensures ReadFrame(!client, Idle, Wire(frames)) == GotFrame(f, Wire(tail))
    ensures f.fin && IsKnownOpcode(f.opcode) && f.opcode != OP_CONTINUATION
  {
    assert f in frames;
    LegalFrameReads(!client, Idle, f, Wire(tail));
  }

  lemma ReadAllBehindControl(client: bool, f: Frame, s: Bytes, s': Bytes)
    requires ReadFrame(client, Idle, s) == GotFrame(f, s') && (f.opcode == OP_PING || f.opcode == OP_PONG)
    ensures var more := ReadAll(client, s');
            ReadAll(client, s) == more.(pongs := (if f.opcode == OP_PING then [f.payload] else []) + more.pongs)
  {
    ControlIsTransparent(client, false, Idle, f, s, s');
    CollectedBehindPongs(client, if f.opcode == OP_PING then [f.payload] else [], Receive(client, false, Idle, s'));
  }

  lemma CollectedBehindPongs(client: bool, pongs: seq<Bytes>, r: ReadResult)
    ensures var more := Collected(client, r);
            Collected(client, Behind(pongs, r)) == more.(pongs := pongs + more.pongs)
  {
    if r.outcome.Delivered? && r.outcome.opcode != OP_CLOSE {
      var more := ReadAll(client, r.rest);
      assert (pongs + r.pongs) + more.pongs == pongs + (r.pongs + more.pongs);
    }
  }

  lemma ReadAllBehindData(client: bool, f: Frame, s: Bytes, s': Bytes)
    requires ReadFrame(client, Idle, s) == GotFrame(f, s') && f.fin
    requires f.opcode == OP_TEXT || f.opcode == OP_BINARY || (f.opcode == OP_CLOSE && s' == [])
    ensures var more := ReadAll(client, s');
            ReadAll(client, s) == more.(messages := [Sent(f.opcode, f.payload)] + more.messages)
  {
    assert Receive(client, false, Idle, s) == ReadResult(Delivered(f.opcode, f.payload), [], s');
  }

  // ---------- some bytes ----------

  // What a client makes of a short unmasked frame that is not fragmented: 1 is a text, 2 a binary message, 8 a Close frame,
  // 9 is answered with its payload and 10 is passed over.
  lemma FirstByteMeans(op: Opcode, payload: Bytes, rest: Bytes, s: Bytes)
    requires |payload| <= 125 && op in {1, 2, 8, 9, 10} && s == [128 + op, |payload|] + payload + rest
    ensures var r, more := Receive(true, false, Idle, s), Receive(true, false, Idle, rest);
            r == if op == 9 then more.(pongs := [payload] + more.pongs)
                 else if op == 10 then more
                 else ReadResult(Delivered(op, payload), [], rest)
  {
    WholeFrame(op, payload, rest, s);
    if op == 10 {
      assert [] + Receive(true, false, Idle, rest).pongs == Receive(true, false, Idle, rest).pongs;
    }
  }

  lemma WholeFrame(op: Opcode, payload: Bytes, rest: Bytes, s: Bytes)
    requires |payload| <= 125 && op in {1, 2, 8, 9, 10} && s == [128 + op, |payload|] + payload + rest
    ensures ReadFrame(true, Idle, s) == GotFrame(Frame(true, op, Short, [], payload), rest)
  {
    var f := Frame(true, op, Short, [], payload);
    assert FrameHead(f) == [128 + op, |payload|] && FrameBytes(f) == [128 + op, |payload|] + payload;
    LegalFrameReads(true, Idle, f, rest);
  }
}
