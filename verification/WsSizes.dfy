/** What the size limit does to a message: interleaved control frames count against it while they are read. */
module WsSizes {
  import opened ByteStrings
  import opened WsFrames
  import opened WsMessages
  import opened WsTheorems

  // Frames that would make up a legal message, or the rest of one, if it were not for their sizes.
  ghost predicate Shaped(client: bool, before: seq<Frame>, frames: seq<Frame>) {
    && frames != []
    && (forall f | f in frames :: WellFormed(client, f))
    && (forall i | 0 <= i < |frames| - 1 :: frames[i].opcode != OP_CLOSE)
    && EndsWell(before + DataFrames(frames), frames[|frames| - 1].opcode)
  }

  lemma {:induction false} SmallFramesAreLegal(client: bool, total: nat, frames: seq<Frame>)
    requires StaysSmall(total, frames) && forall f | f in frames :: WellFormed(client, f)
    ensures forall f | f in frames :: LegalFrame(client, f)
    decreases frames
  {
    if frames != [] {
      var n := |frames[0].payload|;
      SmallFramesAreLegal(client, if IsControlOpcode(frames[0].opcode) then total else total + n, frames[1..]);
    }
  }

  // What is too big for the assembly is what breaks the running total.
  lemma TooBigHere(before: seq<Frame>, n: nat)
    ensures TooBig(AssemblyOf(before), n) <==> |Payloads(before)| + n > MAX_MESSAGE_SIZE
  {}

  lemma ShapeBehindControl(client: bool, before: seq<Frame>, frames: seq<Frame>, f: Frame, tail: seq<Frame>)
    requires Shaped(client, before, frames) && f == frames[0] && tail == frames[1..]
    requires f.opcode == OP_PING || f.opcode == OP_PONG
    ensures Shaped(client, before, tail)
  {
    assert |frames| > 1;
    assert tail[|tail| - 1] == frames[|frames| - 1];
  }

  lemma ShapeBehindFragment(client: bool, before: seq<Frame>, frames: seq<Frame>, f: Frame, tail: seq<Frame>)
    requires Shaped(client, before, frames) && Open(before)
    requires tail != [] && f == frames[0] && tail == frames[1..] && !IsControlOpcode(f.opcode)
    ensures Shaped(client, before + [f], tail) && Open(before + [f]) && |Payloads(before + [f])| == |Payloads(before)| + |f.payload|
  {
    assert tail[|tail| - 1] == frames[|frames| - 1];
    if tail[|tail| - 1].opcode != OP_CLOSE {
      LastIsData(tail);
    }
    var d := before + DataFrames(frames);
    assert d == (before + [f]) + DataFrames(tail);
    assert d[|before|] == f;
    PayloadsAppend(before, f);
  }

  ghost predicate IsTooBig(r: ReadResult) {
    r.outcome == Failed(TOO_BIG)
  }

  // A total that is exceeded somewhere fails the read there.
  lemma {:induction false} BigFails(client: bool, before: seq<Frame>, frames: seq<Frame>, rest: Bytes)
    requires Shaped(client, before, frames) && Open(before) && !StaysSmall(|Payloads(before)|, frames)
    ensures IsTooBig(Receive(client, false, AssemblyOf(before), Wire(frames) + rest))
    decreases |frames|
  {
    var f, tail := frames[0], frames[1..];
    TooBigHere(before, |f.payload|);
    if TooBig(AssemblyOf(before), |f.payload|) {
      FirstIsTooBig(client, AssemblyOf(before), frames, rest);
    } else if IsControlOpcode(f.opcode) {
      ShapeBehindControl(client, before, frames, f, tail);
      BigFails(client, before, tail, rest);
      FirstFrameReads(client, AssemblyOf(before), frames, rest);
      ControlIsTransparent(client, false, AssemblyOf(before), f, Wire(frames) + rest, Wire(tail) + rest);
    } else {
      ShapeBehindFragment(client, before, frames, f, tail);
      BigFails(client, before + [f], tail, rest);
      FirstFrameReads(client, AssemblyOf(before), frames, rest);
      FragmentContinues(client, false, before, f, Wire(frames) + rest, Wire(tail) + rest);
    }
  }

  lemma FirstIsTooBig(client: bool, st: Assembly, frames: seq<Frame>, rest: Bytes)
    requires frames != [] && WellFormed(client, frames[0]) && TooBig(st, |frames[0].payload|)
    ensures IsTooBig(Receive(client, false, st, Wire(frames) + rest))
  {
    LegalFrameReads(client, st, frames[0], Wire(frames[1..]) + rest);
    Rejoin(FrameBytes(frames[0]), Wire(frames[1..]), rest);
  }

  // Main result: frames that make up a message but for their sizes are delivered if and only if every payload,
  // also that of a control frame in between, fits the limit on top of the data in front of it; otherwise the read
  // fails as too big.
  lemma DeliveredIffSmall(client: bool, frames: seq<Frame>, rest: Bytes)
    requires Shaped(client, [], frames)
    ensures Receive(client, false, Idle, Wire(frames) + rest).outcome.Delivered? <==> StaysSmall(0, frames)
    ensures !StaysSmall(0, frames) ==> Receive(client, false, Idle, Wire(frames) + rest).outcome == Failed(TOO_BIG)
  {
    if StaysSmall(0, frames) {
      SmallFramesAreLegal(client, 0, frames);
      assert LegalMessage(client, frames);
      ReadIsComplete(client, [], frames, rest);
      SomethingIsDelivered(client, frames);
    } else {
      BigFails(client, [], frames, rest);
    }
  }

  // ---------- an input ----------

  ghost predicate IsOpening(client: bool, a: Frame) {
    WellFormed(client, a) && a.opcode == OP_TEXT && !a.fin && |a.payload| == MAX_MESSAGE_SIZE
  }

  ghost predicate IsEnding(client: bool, z: Frame) {
    WellFormed(client, z) && z.opcode == OP_CONTINUATION && z.fin && z.payload == []
  }

  // A text of exactly 5 MiB in a fragment with an empty one behind it is delivered; with a ping of one byte in
  // between it is too big.
  lemma PingTipsTheScale(client: bool, mask: Mask, text: Bytes, x: byte, rest: Bytes)
    requires |text| == 5 * 1024 * 1024 && (mask != [] <==> !client)
    ensures var a := Frame(false, OP_TEXT, Extended64, mask, text);
            var ping, z := Frame(true, OP_PING, Short, mask, [x]), Frame(true, OP_CONTINUATION, Short, mask, []);
            && Receive(client, false, Idle, Wire([a, z]) + rest).outcome == Delivered(OP_TEXT, text)
            && Receive(client, false, Idle, Wire([a, ping, z]) + rest).outcome == Failed(TOO_BIG)
  {
    var a := Frame(false, OP_TEXT, Extended64, mask, text);
    var ping, z := Frame(true, OP_PING, Short, mask, [x]), Frame(true, OP_CONTINUATION, Short, mask, []);
    TwoPieces(client, a, z, [a, z], rest);
    ThreePieces(client, a, ping, z, [a, ping, z], rest);
  }

  lemma TwoPieces(client: bool, a: Frame, z: Frame, frames: seq<Frame>, rest: Bytes)
    requires IsOpening(client, a) && IsEnding(client, z) && frames == [a, z]
    ensures Receive(client, false, Idle, Wire(frames) + rest).outcome == Delivered(OP_TEXT, a.payload)
  {
    EndIsData(z);
    assert frames[1..] == [z];
    assert DataFrames(frames) == [a] + [z] == frames && [] + frames == frames;
    assert Payloads(frames) == a.payload + [] == a.payload;
    assert StaysSmall(0, frames);
    assert LegalMessage(client, frames);
    ReadIsComplete(client, [], frames, rest);
  }

  lemma EndIsData(z: Frame)
    requires z.opcode == OP_CONTINUATION && z.payload == []
    ensures DataFrames([z]) == [z] && Payloads([z]) == [] && StaysSmall(MAX_MESSAGE_SIZE, [z])
  {
    assert [z][1..] == [];
  }

  lemma ThreePieces(client: bool, a: Frame, ping: Frame, z: Frame, frames: seq<Frame>, rest: Bytes)
    requires IsOpening(client, a) && IsEnding(client, z) && frames == [a, ping, z]
    requires WellFormed(client, ping) && ping.opcode == OP_PING && |ping.payload| == 1
    ensures Receive(client, false, Idle, Wire(frames) + rest).outcome == Failed(TOO_BIG)
  {
    EndIsData(z);
    assert frames[1..] == [ping, z] && [ping, z][1..] == [z];
    assert DataFrames([ping, z]) == [z];
    assert DataFrames(frames) == [a] + [z] == [a, z] && [] + [a, z] == [a, z];
    assert !StaysSmall(MAX_MESSAGE_SIZE, [ping, z]);
    assert !StaysSmall(0, frames);
    assert Shaped(client, [], frames);
    DeliveredIffSmall(client, frames, rest);
  }
}
