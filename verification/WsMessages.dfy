/** Reading a whole message (RFC 6455 section 5.4): the reader's behaviour over all input, and the
    frame sequences that make up a message. */
module WsMessages {
  import opened ByteStrings
  import opened WsFrames

  datatype Outcome =
    | EndOfInput
    | Failed(violation: Violation)
    | PongRefused  // a ping arrived on a closed connection
    | Delivered(opcode: Opcode, payload: Bytes)

  // `pongs` are the payloads of the pongs that were written, in order.
  datatype ReadResult = ReadResult(outcome: Outcome, pongs: seq<Bytes>, rest: Bytes)

  // What one frame leads to.
  datatype Step = Stop(outcome: Outcome) | Continue(st: Assembly, pongs: seq<Bytes>)

  function Handle(closed: bool, st: Assembly, f: Frame): Step {
    if f.opcode == OP_PING then if closed then Stop(PongRefused) else Continue(st, [f.payload])
    else if f.opcode == OP_PONG then Continue(st, [])
    else if f.opcode == OP_CLOSE then Stop(Delivered(OP_CLOSE, f.payload))
    else if st.Idle? then
      if f.opcode == OP_CONTINUATION then Stop(Failed(STRAY_CONTINUATION))
      else if f.fin then Stop(Delivered(f.opcode, f.payload))
      else Continue(Assembling(f.opcode, f.payload), [])
    else
      if f.opcode != OP_CONTINUATION then Stop(Failed(NO_CONTINUATION))
      else if f.fin then Stop(Delivered(st.opcode, st.buffer + f.payload))
      else Continue(Assembling(st.opcode, st.buffer + f.payload), [])
  }

  // The reader from a given state of the assembly on the remaining input.
  function Receive(client: bool, closed: bool, st: Assembly, s: Bytes): (r: ReadResult)
    ensures |r.rest| <= |s| && (s != [] ==> |r.rest| < |s|)
    decreases |s|, 0
  {
    match ReadFrame(client, st, s)
    case FrameShort => ReadResult(EndOfInput, [], [])
    case FrameBad(violation) => ReadResult(Failed(violation), [], [])
    case GotFrame(f, rest) => Resume(client, closed, Handle(closed, st, f), rest)
  }

  function Resume(client: bool, closed: bool, step: Step, rest: Bytes): (r: ReadResult)
    ensures |r.rest| <= |rest|
    decreases |rest|, 1
  {
    match step
    case Stop(outcome) => ReadResult(outcome, [], rest)
    case Continue(st, pongs) =>
      var more := Receive(client, closed, st, rest);
      ReadResult(more.outcome, pongs + more.pongs, more.rest)
  }

  // ---------- the frame sequences of a message ----------

  function DataFrames(frames: seq<Frame>): (d: seq<Frame>) {
    if frames == [] then []
    else if IsControlOpcode(frames[0].opcode) then DataFrames(frames[1..])
    else [frames[0]] + DataFrames(frames[1..])
  }

  function Payloads(frames: seq<Frame>): Bytes {
    if frames == [] then [] else frames[0].payload + Payloads(frames[1..])
  }

  function PingPayloads(frames: seq<Frame>): seq<Bytes> {
    if frames == [] then []
    else if frames[0].opcode == OP_PING then [frames[0].payload] + PingPayloads(frames[1..])
    else PingPayloads(frames[1..])
  }

  // The fragments of one message: an opening frame, continuations, and FIN on the last one only.
  ghost predicate Fragments(d: seq<Frame>) {
    && d != []
    && (forall i | 0 <= i < |d| :: d[i].opcode == OP_CONTINUATION <==> i > 0)
    && (forall i | 0 <= i < |d| :: d[i].fin <==> i == |d| - 1)
  }

  // Every frame's payload fits the size limit on top of the data that was there before it.
  ghost predicate StaysSmall(total: nat, frames: seq<Frame>)
    decreases frames
  {
    frames == [] ||
    var n := |frames[0].payload|;
    && total + n <= MAX_MESSAGE_SIZE
    && StaysSmall(if IsControlOpcode(frames[0].opcode) then total else total + n, frames[1..])
  }

  // Legal frames that end a read: the fragments of a message with pings and pongs in between and a data
  // frame last, or the same cut short by a Close frame.
  ghost predicate LegalMessage(client: bool, frames: seq<Frame>) {
    LegalRest(client, [], frames)
  }

  // The same when the data frames `before` have already been received.
  ghost predicate LegalRest(client: bool, before: seq<Frame>, frames: seq<Frame>) {
    && frames != []
    && (forall f | f in frames :: LegalFrame(client, f))
    && (forall i | 0 <= i < |frames| - 1 :: frames[i].opcode != OP_CLOSE)
    && EndsWell(before + DataFrames(frames), frames[|frames| - 1].opcode)
    && StaysSmall(|Payloads(before)|, frames)
  }

  ghost predicate EndsWell(d: seq<Frame>, last: Opcode) {
    if last == OP_CLOSE then Open(d) else !IsControlOpcode(last) && Fragments(d)
  }

  // Data frames of a message still open, and the reader's state behind them.
  ghost predicate Open(before: seq<Frame>) {
    forall i | 0 <= i < |before| :: !before[i].fin && (before[i].opcode == OP_CONTINUATION <==> i > 0)
  }

  function AssemblyOf(before: seq<Frame>): Assembly {
    if before == [] then Idle else Assembling(before[0].opcode, Payloads(before))
  }

  lemma {:induction false} PayloadsAppend(a: seq<Frame>, f: Frame)
    ensures Payloads(a + [f]) == Payloads(a) + f.payload
  {
    if a == [] {
      assert a + [f] == [f];
      assert Payloads([f]) == f.payload + Payloads([]);
    } else {
      PayloadsAppend(a[1..], f);
      assert (a + [f])[1..] == a[1..] + [f];
    }
  }

  lemma {:induction false} LastIsData(frames: seq<Frame>)
    requires frames != [] && !IsControlOpcode(frames[|frames| - 1].opcode)
    ensures DataFrames(frames) != []
  {
    if |frames| > 1 {
      LastIsData(frames[1..]);
    }
  }

  // ---------- completeness ----------

  // The first frame of a legal rest is legal and not too big where it stands.
  lemma HeadFits(client: bool, before: seq<Frame>, frames: seq<Frame>)
    requires LegalRest(client, before, frames)
    ensures LegalFrame(client, frames[0]) && !TooBig(AssemblyOf(before), |frames[0].payload|)
  {}

  // Behind a ping or pong the rest is still legal, ...
  lemma BehindControl(client: bool, before: seq<Frame>, frames: seq<Frame>, f: Frame, tail: seq<Frame>)
    requires LegalRest(client, before, frames) && f == frames[0] && tail == frames[1..]
    requires f.opcode == OP_PING || f.opcode == OP_PONG
    ensures LegalRest(client, before, tail)
  {
    assert |frames| > 1;
    assert tail[|tail| - 1] == frames[|frames| - 1];
  }

  // ... behind a fragment that is not the last frame it is legal with one more fragment received, ...
  lemma BehindFragment(client: bool, before: seq<Frame>, frames: seq<Frame>, f: Frame, tail: seq<Frame>)
    requires LegalRest(client, before, frames) && Open(before)
    requires tail != [] && f == frames[0] && tail == frames[1..] && !IsControlOpcode(f.opcode)
    ensures LegalRest(client, before + [f], tail) && Open(before + [f])
  {
    assert tail[|tail| - 1] == frames[|frames| - 1];
    if tail[|tail| - 1].opcode != OP_CLOSE {
      LastIsData(tail);
    }
    var d := before + DataFrames(frames);
    assert d == (before + [f]) + DataFrames(tail);
    assert d[|before|] == f;
    PayloadsAppend(before, f);
  }

  // ... and the last frame completes the message.
  lemma LastFragment(client: bool, before: seq<Frame>, frames: seq<Frame>)
    requires LegalRest(client, before, frames) && |frames| == 1 && !IsControlOpcode(frames[0].opcode)
    ensures DataFrames(frames) == frames && Fragments(before + frames) && PingPayloads(frames) == []
  {
    assert frames[1..] == [];
  }

  // What the reader should end in on these frames.
  ghost function Expected(before: seq<Frame>, frames: seq<Frame>, rest: Bytes): ReadResult {
    ReadResult(Message(before, frames), PingPayloads(frames), rest)
  }

  ghost function Message(before: seq<Frame>, frames: seq<Frame>): Outcome {
    var d := before + DataFrames(frames);
    if frames != [] && frames[|frames| - 1].opcode == OP_CLOSE then Delivered(OP_CLOSE, frames[|frames| - 1].payload)
    else if d == [] then EndOfInput
    else Delivered(d[0].opcode, Payloads(d))
  }

  // Main result: from any legal frame sequence, whatever follows it, the reader delivers the opcode of
  // the first fragment with all payloads joined (or the Close frame that came in between), answers each
  // ping once and in order, and stops there.
  lemma {:induction false} ReadIsComplete(client: bool, before: seq<Frame>, frames: seq<Frame>, rest: Bytes)
    requires LegalRest(client, before, frames) && Open(before)
    ensures Receive(client, false, AssemblyOf(before), Wire(frames) + rest) == Expected(before, frames, rest)
    decreases |frames|, 1
  {
    HeadFits(client, before, frames);
    if frames[0].opcode == OP_CLOSE {
      CompleteClose(client, before, frames, frames[0], rest);
    } else if IsControlOpcode(frames[0].opcode) {
      CompleteControl(client, before, frames, frames[0], frames[1..], rest);
    } else if |frames| == 1 {
      CompleteLast(client, before, frames, frames[0], rest);
    } else {
      CompleteFragment(client, before, frames, frames[0], frames[1..], rest);
    }
  }

  lemma CompleteClose(client: bool, before: seq<Frame>, frames: seq<Frame>, f: Frame, rest: Bytes)
    requires LegalRest(client, before, frames) && f == frames[0] && f.opcode == OP_CLOSE
    ensures Receive(client, false, AssemblyOf(before), Wire(frames) + rest) == Expected(before, frames, rest)
  {
    HeadFits(client, before, frames);
    FirstFrameReads(client, AssemblyOf(before), frames, rest);
    assert frames == [f] && Wire([]) + rest == rest;
    CloseDelivers(client, false, before, frames, f, Wire(frames) + rest, rest);
  }

  lemma CloseDelivers(client: bool, closed: bool, before: seq<Frame>, frames: seq<Frame>, f: Frame, s: Bytes, s': Bytes)
    requires ReadFrame(client, AssemblyOf(before), s) == GotFrame(f, s') && frames == [f] && f.opcode == OP_CLOSE
    ensures Receive(client, closed, AssemblyOf(before), s) == Expected(before, frames, s')
    ensures before + DataFrames(frames) == before
  {
    assert frames[1..] == [] && PingPayloads(frames) == PingPayloads([]);
    assert Handle(closed, AssemblyOf(before), f) == Stop(Message(before, frames));
  }

  lemma {:induction false} CompleteControl(client: bool, before: seq<Frame>, frames: seq<Frame>, f: Frame,
                                           tail: seq<Frame>, rest: Bytes)
    requires LegalRest(client, before, frames) && Open(before) && f == frames[0] && tail == frames[1..]
    requires f.opcode == OP_PING || f.opcode == OP_PONG
    ensures Receive(client, false, AssemblyOf(before), Wire(frames) + rest) == Expected(before, frames, rest)
    decreases |frames|, 0
  {
    BehindControl(client, before, frames, f, tail);
    ReadIsComplete(client, before, tail, rest);
    HeadFits(client, before, frames);
    FirstFrameReads(client, AssemblyOf(before), frames, rest);
    ControlIsTransparent(client, false, AssemblyOf(before), f, Wire(frames) + rest, Wire(tail) + rest);
    ExpectedBehindControl(before, frames, f, tail, rest);
  }

  lemma ExpectedBehindControl(before: seq<Frame>, frames: seq<Frame>, f: Frame, tail: seq<Frame>, rest: Bytes)
    requires frames != [] && f == frames[0] && tail == frames[1..] && tail != []
    requires f.opcode == OP_PING || f.opcode == OP_PONG
    ensures var more := Expected(before, tail, rest);
            Expected(before, frames, rest) == more.(pongs := (if f.opcode == OP_PING then [f.payload] else []) + more.pongs)
  {}

  lemma CompleteLast(client: bool, before: seq<Frame>, frames: seq<Frame>, f: Frame, rest: Bytes)
    requires LegalRest(client, before, frames) && Open(before) && frames == [f] && !IsControlOpcode(f.opcode)
    ensures Receive(client, false, AssemblyOf(before), Wire(frames) + rest) == Expected(before, frames, rest)
  {
    HeadFits(client, before, frames);
    FirstFrameReads(client, AssemblyOf(before), frames, rest);
    LastFragment(client, before, frames);
    LastCompletes(client, false, before, f, Wire(frames) + rest, rest);
  }

  lemma {:induction false} CompleteFragment(client: bool, before: seq<Frame>, frames: seq<Frame>, f: Frame,
                                            tail: seq<Frame>, rest: Bytes)
    requires LegalRest(client, before, frames) && Open(before)
    requires f == frames[0] && tail == frames[1..] && tail != [] && !IsControlOpcode(f.opcode)
    ensures Receive(client, false, AssemblyOf(before), Wire(frames) + rest) == Expected(before, frames, rest)
    decreases |frames|, 0
  {
    var grown := before + [f];
    BehindFragment(client, before, frames, f, tail);
    ReadIsComplete(client, grown, tail, rest);
    FirstFragmentReads(client, before, frames, f, grown, rest);
    ExpectedMoves(before, frames, f, grown, tail, rest);
  }

  lemma ExpectedMoves(before: seq<Frame>, frames: seq<Frame>, f: Frame, grown: seq<Frame>, tail: seq<Frame>, rest: Bytes)
    requires frames != [] && f == frames[0] && !IsControlOpcode(f.opcode) && tail == frames[1..] && tail != []
    requires grown == before + [f]
    ensures Expected(grown, tail, rest) == Expected(before, frames, rest)
  {
    Rejoin(before, [f], DataFrames(tail));
  }

  lemma FirstFragmentReads(client: bool, before: seq<Frame>, frames: seq<Frame>, f: Frame, grown: seq<Frame>, rest: Bytes)
    requires LegalRest(client, before, frames) && f == frames[0] && !IsControlOpcode(f.opcode)
    requires grown == before + [f] && Open(grown)
    ensures Receive(client, false, AssemblyOf(before), Wire(frames) + rest)
         == Receive(client, false, AssemblyOf(grown), Wire(frames[1..]) + rest)
  {
    HeadFits(client, before, frames);
    FirstFrameReads(client, AssemblyOf(before), frames, rest);
    FragmentContinues(client, false, before, f, Wire(frames) + rest, Wire(frames[1..]) + rest);
  }

  lemma FirstFrameReads(client: bool, st: Assembly, frames: seq<Frame>, rest: Bytes)
    requires frames != [] && WellFormed(client, frames[0]) && !TooBig(st, |frames[0].payload|)
    ensures ReadFrame(client, st, Wire(frames) + rest) == GotFrame(frames[0], Wire(frames[1..]) + rest)
  {
    LegalFrameReads(client, st, frames[0], Wire(frames[1..]) + rest);
    Rejoin(FrameBytes(frames[0]), Wire(frames[1..]), rest);
  }

  lemma ControlIsTransparent(client: bool, closed: bool, st: Assembly, f: Frame, s: Bytes, s': Bytes)
    requires ReadFrame(client, st, s) == GotFrame(f, s') && Handle(closed, st, f).Continue?
    requires f.opcode == OP_PING || f.opcode == OP_PONG
    ensures var more := Receive(client, closed, st, s');
            Receive(client, closed, st, s) == more.(pongs := (if f.opcode == OP_PING then [f.payload] else []) + more.pongs)
  {}

  lemma LastCompletes(client: bool, closed: bool, before: seq<Frame>, f: Frame, s: Bytes, s': Bytes)
    requires ReadFrame(client, AssemblyOf(before), s) == GotFrame(f, s')
    requires !IsControlOpcode(f.opcode) && Fragments(before + [f])
    ensures var d := before + [f];
            Receive(client, closed, AssemblyOf(before), s) == ReadResult(Delivered(d[0].opcode, Payloads(d)), [], s')
  {
    FragmentFacts(before, f);
    PayloadsAppend(before, f);
  }

  // Where a fragment stands in its message decides its opcode.
  lemma FragmentFacts(before: seq<Frame>, f: Frame)
    requires Fragments(before + [f]) || Open(before + [f])
    ensures f.opcode == OP_CONTINUATION <==> before != []
    ensures before != [] ==> (before + [f])[0] == before[0]
    ensures before == [] ==> (before + [f])[0] == f && Payloads(before + [f]) == f.payload
    ensures f.fin <==> Fragments(before + [f])
    ensures Open(before + [f]) ==> !f.fin
  {
    assert (before + [f])[|before|] == f;
    PayloadsAppend(before, f);
    assert before == [] ==> Payloads(before) + f.payload == f.payload;
  }

  lemma FragmentContinues(client: bool, closed: bool, before: seq<Frame>, f: Frame, s: Bytes, s': Bytes)
    requires ReadFrame(client, AssemblyOf(before), s) == GotFrame(f, s')
    requires !IsControlOpcode(f.opcode) && Open(before + [f])
    ensures Receive(client, closed, AssemblyOf(before), s) == Receive(client, closed, AssemblyOf(before + [f]), s')
  {
    FragmentFacts(before, f);
    PayloadsAppend(before, f);
    assert Handle(closed, AssemblyOf(before), f) == Continue(AssemblyOf(before + [f]), []);
  }

  // ---------- soundness ----------

  // `frames` is what was read from `s` when the data frames `before` had been received.
  ghost predicate Explains(client: bool, closed: bool, before: seq<Frame>, s: Bytes, frames: seq<Frame>) {
    var r := Receive(client, closed, AssemblyOf(before), s);
    && LegalRest(client, before, frames)
    && s == Wire(frames) + r.rest
    && r == Expected(before, frames, r.rest)
  }

  // Main result: whenever something is delivered, for either role and on any input, the bytes consumed
  // are the bytes of a legal frame sequence, and what is delivered and answered is what it says.
  lemma {:induction false} ReadIsSound(client: bool, closed: bool, before: seq<Frame>, s: Bytes) returns (frames: seq<Frame>)
    requires Open(before) && Receive(client, closed, AssemblyOf(before), s).outcome.Delivered?
    ensures Explains(client, closed, before, s, frames)
    decreases |s|
  {
    var st := AssemblyOf(before);
    var f, s' := ReadFrame(client, st, s).frame, ReadFrame(client, st, s).rest;
    if f.opcode == OP_CLOSE {
      frames := [f];
      SoundLast(client, closed, before, s, f, s', frames);
    } else if IsControlOpcode(f.opcode) {
      ControlIsTransparent(client, closed, st, f, s, s');
      var tail := ReadIsSound(client, closed, before, s');
      frames := [f] + tail;
      SoundControl(client, closed, before, s, f, s', tail, frames);
    } else {
      DataFrameExtends(closed, before, f);
      if f.fin {
        frames := [f];
        SoundLast(client, closed, before, s, f, s', frames);
      } else {
        FragmentContinues(client, closed, before, f, s, s');
        var tail := ReadIsSound(client, closed, before + [f], s');
        frames := [f] + tail;
        SoundFragment(client, closed, before, s, f, s', before + [f], tail, frames);
      }
    }
  }

  // A data frame the reader does not fail on continues the open message, or ends it if FIN is set.
  lemma DataFrameExtends(closed: bool, before: seq<Frame>, f: Frame)
    requires Open(before) && !IsControlOpcode(f.opcode)
    requires var step := Handle(closed, AssemblyOf(before), f); step.Continue? || step.outcome.Delivered?
    ensures if f.fin then Fragments(before + [f]) else Open(before + [f])
  {}

  lemma SoundLast(client: bool, closed: bool, before: seq<Frame>, s: Bytes, f: Frame, s': Bytes, frames: seq<Frame>)
    requires ReadFrame(client, AssemblyOf(before), s) == GotFrame(f, s') && frames == [f] && Open(before)
    requires f.opcode == OP_CLOSE || (!IsControlOpcode(f.opcode) && Fragments(before + [f]))
    ensures Explains(client, closed, before, s, frames)
  {
    LegalAlone(client, before, s, f, s', frames);
    if f.opcode == OP_CLOSE {
      CloseDelivers(client, closed, before, frames, f, s, s');
    } else {
      LastFragment(client, before, frames);
      LastCompletes(client, closed, before, f, s, s');
    }
  }

  lemma LegalAlone(client: bool, before: seq<Frame>, s: Bytes, f: Frame, s': Bytes, frames: seq<Frame>)
    requires ReadFrame(client, AssemblyOf(before), s) == GotFrame(f, s') && frames == [f] && Open(before)
    requires f.opcode == OP_CLOSE || (!IsControlOpcode(f.opcode) && Fragments(before + [f]))
    ensures LegalRest(client, before, frames) && s == Wire(frames) + s'
  {
    ReadFrameIsLegal(client, AssemblyOf(before), s);
    ReadFrameConsumes(client, AssemblyOf(before), s);
    assert frames[1..] == [] && Wire(frames) == FrameBytes(f);
    assert before + [] == before && DataFrames(frames) == if f.opcode == OP_CLOSE then [] else frames;
  }

  lemma SoundControl(client: bool, closed: bool, before: seq<Frame>, s: Bytes, f: Frame, s': Bytes,
                     tail: seq<Frame>, frames: seq<Frame>)
    requires ReadFrame(client, AssemblyOf(before), s) == GotFrame(f, s') && Handle(closed, AssemblyOf(before), f).Continue?
    requires (f.opcode == OP_PING || f.opcode == OP_PONG)
    requires frames == [f] + tail && Explains(client, closed, before, s', tail)
    ensures Explains(client, closed, before, s, frames)
  {
    ControlIsTransparent(client, closed, AssemblyOf(before), f, s, s');
    ExpectedBehindControl(before, frames, f, tail, Receive(client, closed, AssemblyOf(before), s').rest);
    FrameInFront(client, AssemblyOf(before), s, f, s', tail, frames, Receive(client, closed, AssemblyOf(before), s').rest);
    LegalInFront(client, before, before, f, tail, frames);
  }

  lemma SoundFragment(client: bool, closed: bool, before: seq<Frame>, s: Bytes, f: Frame, s': Bytes,
                      grown: seq<Frame>, tail: seq<Frame>, frames: seq<Frame>)
    requires ReadFrame(client, AssemblyOf(before), s) == GotFrame(f, s')
    requires !IsControlOpcode(f.opcode) && Open(grown) && grown == before + [f]
    requires frames == [f] + tail && Explains(client, closed, grown, s', tail)
    ensures Explains(client, closed, before, s, frames)
  {
    FragmentContinues(client, closed, before, f, s, s');
    ExpectedMoves(before, frames, f, grown, tail, Receive(client, closed, AssemblyOf(grown), s').rest);
    FrameInFront(client, AssemblyOf(before), s, f, s', tail, frames, Receive(client, closed, AssemblyOf(grown), s').rest);
    LegalInFront(client, before, grown, f, tail, frames);
  }

  lemma FrameInFront(client: bool, st: Assembly, s: Bytes, f: Frame, s': Bytes, tail: seq<Frame>, frames: seq<Frame>, rest: Bytes)
    requires ReadFrame(client, st, s) == GotFrame(f, s') && s' == Wire(tail) + rest && frames == [f] + tail
    ensures s == Wire(frames) + rest && LegalFrame(client, f) && !TooBig(st, |f.payload|)
  {
    ReadFrameIsLegal(client, st, s);
    ReadFrameConsumes(client, st, s);
    assert frames[1..] == tail;
    Rejoin(FrameBytes(f), Wire(tail), rest);
  }

  lemma LegalInFront(client: bool, before: seq<Frame>, grown: seq<Frame>, f: Frame, tail: seq<Frame>, frames: seq<Frame>)
    requires LegalRest(client, grown, tail) && frames == [f] + tail && f.opcode != OP_CLOSE
    requires LegalFrame(client, f) && !TooBig(AssemblyOf(before), |f.payload|)
    requires grown == if IsControlOpcode(f.opcode) then before else before + [f]
    ensures LegalRest(client, before, frames)
  {
    assert frames[1..] == tail && frames[|frames| - 1] == tail[|tail| - 1];
    Rejoin(before, [f], DataFrames(tail));
    PayloadsAppend(before, f);
  }
}
