/** The bounded delivery queue of a subscription, shared by publishers that drop the oldest frame when it
    is full and one consumer. Every select of the source is one atomic step. */
module DeliveryQueue {
  import opened ByteStrings

  datatype Frame = Frame(opcode: nat, payload: Bytes)

  const CAPACITY: nat := 100

  // ---------- the queue itself ----------

  class Queue {
    var frames: seq<Frame>

    constructor ()
      ensures frames == []
    {
      frames := [];
    }

    // select { case queue <- f: default: }
    method TrySend(f: Frame) returns (sent: bool)
      modifies this
      ensures sent <==> |old(frames)| < CAPACITY
      ensures frames == if sent then old(frames) + [f] else old(frames)
    {
      sent := |frames| < CAPACITY;
      if sent {
        frames := frames + [f];
      }
    }

    // select { case f := <-queue: default: }
    method TryReceive() returns (f: Option<Frame>)
      modifies this
      ensures f.None? <==> old(frames) == []
      ensures f.Some? ==> old(frames) == [f.value] + frames
      ensures f.None? ==> frames == []
    {
      if frames == [] {
        return None;
      }
      f := Some(frames[0]);
      frames := frames[1..];
    }

    // Undisturbed, a send to a full queue replaces the oldest frame.
    method Enqueue(f: Frame)
      modifies this
      ensures |old(frames)| < CAPACITY ==> frames == old(frames) + [f]
      ensures |old(frames)| == CAPACITY ==> frames == old(frames)[1..] + [f]
    {
      var sent := TrySend(f);
      if !sent {
        var dropped := TryReceive();
        sent := TrySend(f);
      }
    }
  }

  // ---------- many publishers and one consumer ----------

  // Where a publisher is inside enqueue.
  datatype Phase = Resting | Dropping(frame: Frame) | Sending(frame: Frame)

  datatype Step =
    | Publish(p: nat, frame: Frame)  // the first select
    | DropOldest(p: nat)             // the second
    | SendAgain(p: nat)              // the third
    | Consume

  // `sent` logs the frames put into the queue. The first `removed` of them have left it, those at the
  // positions `delivered` to the consumer. `lost` never got in.
  datatype State = State(queue: seq<Frame>, phases: seq<Phase>, published: seq<Frame>, sent: seq<Frame>,
                         removed: nat, delivered: seq<nat>, lost: seq<Frame>)

  function Start(publishers: nat): State {
    State([], seq(publishers, i => Resting), [], [], 0, [], [])
  }

  predicate Enabled(s: State, step: Step) {
    match step
    case Publish(p, _) => p < |s.phases| && s.phases[p].Resting?
    case DropOldest(p) => p < |s.phases| && s.phases[p].Dropping?
    case SendAgain(p) => p < |s.phases| && s.phases[p].Sending?
    case Consume => s.queue != []
  }

  function Sent(s: State, f: Frame): State {
    s.(queue := s.queue + [f], sent := s.sent + [f])
  }

  function Do(s: State, step: Step): State
    requires Enabled(s, step)
  {
    match step
    case Publish(p, f) =>
      var begun := s.(published := s.published + [f]);
      if |s.queue| < CAPACITY then Sent(begun, f) else begun.(phases := s.phases[p := Dropping(f)])
    case DropOldest(p) =>
      var next := s.(phases := s.phases[p := Sending(s.phases[p].frame)]);
      if s.queue == [] then next else next.(queue := s.queue[1..], removed := s.removed + 1)
    case SendAgain(p) =>
      var f, next := s.phases[p].frame, s.(phases := s.phases[p := Resting]);
      if |s.queue| < CAPACITY then Sent(next, f) else next.(lost := s.lost + [f])
    case Consume =>
      s.(queue := s.queue[1..], removed := s.removed + 1, delivered := s.delivered + [s.removed])
  }

  // A run; steps that are not enabled where they stand do nothing.
  function Run(s: State, steps: seq<Step>): State
    decreases steps
  {
    if steps == [] then s else Run(if Enabled(s, steps[0]) then Do(s, steps[0]) else s, steps[1..])
  }

  // How often a frame is in some publisher's hand.
  function InHand(phases: seq<Phase>, f: Frame): nat {
    if phases == [] then 0 else Held(phases[0], f) + InHand(phases[1..], f)
  }

  function Held(phase: Phase, f: Frame): nat {
    if phase.Resting? || phase.frame != f then 0 else 1
  }

  // What every reachable state satisfies.
  ghost predicate Sound(s: State) {
    InOrder(s) && forall f :: Conserved(s, f)
  }

  ghost predicate InOrder(s: State) {
    && |s.queue| <= CAPACITY
    && s.removed <= |s.sent| && s.queue == s.sent[s.removed..]
    && (forall i | 0 <= i < |s.delivered| :: s.delivered[i] < s.removed)
    && (forall i, j | 0 <= i < j < |s.delivered| :: s.delivered[i] < s.delivered[j])
  }

  ghost predicate Conserved(s: State, f: Frame) {
    multiset(s.published)[f] == multiset(s.sent)[f] + multiset(s.lost)[f] + InHand(s.phases, f)
  }

  lemma {:induction false} InHandChanges(phases: seq<Phase>, p: nat, phase: Phase, f: Frame)
    requires p < |phases|
    ensures InHand(phases[p := phase], f) + Held(phases[p], f) == InHand(phases, f) + Held(phase, f)
  {
    if p > 0 {
      InHandChanges(phases[1..], p - 1, phase, f);
      assert phases[p := phase][1..] == phases[1..][p - 1 := phase];
    } else {
      assert phases[p := phase][1..] == phases[1..];
    }
  }

  lemma {:induction false} NothingInHand(phases: seq<Phase>, f: Frame)
    requires forall i | 0 <= i < |phases| :: phases[i].Resting?
    ensures InHand(phases, f) == 0
  {
    if phases != [] {
      NothingInHand(phases[1..], f);
    }
  }

  lemma StartIsSound(publishers: nat)
    ensures Sound(Start(publishers))
  {
    forall f ensures Conserved(Start(publishers), f) {
      NothingInHand(Start(publishers).phases, f);
    }
  }

  lemma StepIsOrdered(s: State, step: Step)
    requires InOrder(s) && Enabled(s, step)
    ensures InOrder(Do(s, step))
  {}

  lemma StepConserves(s: State, step: Step, f: Frame)
    requires Conserved(s, f) && Enabled(s, step)
    ensures Conserved(Do(s, step), f)
  {
    match step
    case Publish(p, g) => PublishConserves(s, p, g, f);
    case DropOldest(p) => InHandChanges(s.phases, p, Sending(s.phases[p].frame), f);
    case SendAgain(p) => SendConserves(s, p, f);
    case Consume =>
  }

  lemma PublishConserves(s: State, p: nat, g: Frame, f: Frame)
    requires Conserved(s, f) && Enabled(s, Publish(p, g))
    ensures Conserved(Do(s, Publish(p, g)), f)
  {
    InHandChanges(s.phases, p, Dropping(g), f);
  }

  lemma SendConserves(s: State, p: nat, f: Frame)
    requires Conserved(s, f) && Enabled(s, SendAgain(p))
    ensures Conserved(Do(s, SendAgain(p)), f)
  {
    InHandChanges(s.phases, p, Resting, f);
  }

  lemma StepIsSound(s: State, step: Step)
    requires Sound(s) && Enabled(s, step)
    ensures Sound(Do(s, step))
  {
    StepIsOrdered(s, step);
    forall f ensures Conserved(Do(s, step), f) {
      StepConserves(s, step, f);
    }
  }

  lemma {:induction false} RunIsSound(s: State, steps: seq<Step>)
    requires Sound(s)
    ensures Sound(Run(s, steps))
    decreases steps
  {
    if steps != [] {
      if Enabled(s, steps[0]) {
        StepIsSound(s, steps[0]);
      }
      RunIsSound(if Enabled(s, steps[0]) then Do(s, steps[0]) else s, steps[1..]);
    }
  }

  // Main result: for any number of publishers and any interleaving, at most 100 frames are queued, the
  // frames removed and then the queue make up the send log, what is delivered is a part of that log in
  // its order and without duplicates, and every published frame is sent once, lost once or still in hand.
  lemma EveryRunIsSound(publishers: nat, steps: seq<Step>)
    ensures Sound(Run(Start(publishers), steps)) && |Run(Start(publishers), steps).queue| <= 100
  {
    StartIsSound(publishers);
    RunIsSound(Start(publishers), steps);
  }

  // ---------- a single publisher ----------

  // Nothing is lost, and at rest the newest frame is in the queue or was the last one delivered.
  ghost predicate NewestIsSafe(s: State) {
    && |s.phases| == 1 && s.lost == []
    && (match s.phases[0]
        case Resting => s.published == s.sent && (s.sent == [] || s.queue != [] || LastDelivered(s))
        case Dropping(f) => s.published == s.sent + [f]
        case Sending(f) => s.published == s.sent + [f] && |s.queue| < CAPACITY)
  }

  ghost predicate LastDelivered(s: State) {
    s.delivered != [] && s.delivered[|s.delivered| - 1] == |s.sent| - 1
  }

  lemma StepKeepsNewest(s: State, step: Step)
    requires Sound(s) && NewestIsSafe(s) && Enabled(s, step)
    ensures NewestIsSafe(Do(s, step))
  {}

  lemma {:induction false} RunKeepsNewest(s: State, steps: seq<Step>)
    requires Sound(s) && NewestIsSafe(s)
    ensures NewestIsSafe(Run(s, steps))
    decreases steps
  {
    if steps != [] {
      if Enabled(s, steps[0]) {
        StepIsSound(s, steps[0]);
        StepKeepsNewest(s, steps[0]);
      }
      RunKeepsNewest(if Enabled(s, steps[0]) then Do(s, steps[0]) else s, steps[1..]);
    }
  }

  // Main result: one publisher never loses a frame on the way in, whatever the consumer does.
  lemma SinglePublisherKeepsNewest(steps: seq<Step>)
    ensures NewestIsSafe(Run(Start(1), steps))
  {
    StartIsSound(1);
    RunKeepsNewest(Start(1), steps);
  }

  // ---------- several publishers ----------

  // The publisher that takes a step, if any.
  predicate Takes(step: Step, p: nat) {
    match step
    case Publish(q, _) => q == p
    case DropOldest(q) => q == p
    case SendAgain(q) => q == p
    case Consume => false
  }

  lemma StepOnlyGrows(s: State, step: Step)
    requires Enabled(s, step)
    ensures |s.sent| <= |Do(s, step).sent| && s.removed <= Do(s, step).removed
  {}

  lemma {:induction false} RunOnlyGrows(s: State, steps: seq<Step>)
    ensures |s.sent| <= |Run(s, steps).sent| && s.removed <= Run(s, steps).removed
    decreases steps
  {
    if steps != [] {
      if Enabled(s, steps[0]) {
        StepOnlyGrows(s, steps[0]);
      }
      RunOnlyGrows(if Enabled(s, steps[0]) then Do(s, steps[0]) else s, steps[1..]);
    }
  }

  lemma StepLeavesPhase(s: State, step: Step, p: nat)
    requires Enabled(s, step) && p < |s.phases| && !Takes(step, p)
    ensures |Do(s, step).phases| == |s.phases| && Do(s, step).phases[p] == s.phases[p]
  {}

  lemma {:induction false} RunLeavesPhase(s: State, steps: seq<Step>, p: nat)
    requires p < |s.phases| && forall i | 0 <= i < |steps| :: !Takes(steps[i], p)
    ensures |Run(s, steps).phases| == |s.phases| && Run(s, steps).phases[p] == s.phases[p]
    decreases steps
  {
    if steps != [] {
      if Enabled(s, steps[0]) {
        StepLeavesPhase(s, steps[0], p);
      }
      RunLeavesPhase(if Enabled(s, steps[0]) then Do(s, steps[0]) else s, steps[1..], p);
    }
  }

  // Main result: a publisher that has made room loses its frame exactly if, before it sends, the others put
  // in as many frames as there was room for and as have left the queue since; with nothing put in
  // by others nothing is lost.
  lemma LostWhenOvertaken(s: State, p: nat, between: seq<Step>)
    requires Sound(s) && Enabled(s, DropOldest(p)) && forall i | 0 <= i < |between| :: !Takes(between[i], p)
    ensures var made := Do(s, DropOldest(p)); var now := Run(made, between);
            && Enabled(now, SendAgain(p)) && |made.queue| < CAPACITY
            && (Do(now, SendAgain(p)).lost == now.lost + [s.phases[p].frame]
                <==> |now.sent| - |made.sent| == CAPACITY - |made.queue| + now.removed - made.removed)
            && (Do(now, SendAgain(p)).lost == now.lost
                <==> |now.sent| - |made.sent| < CAPACITY - |made.queue| + now.removed - made.removed)
            && (|now.sent| == |made.sent| ==> Do(now, SendAgain(p)).lost == now.lost)
  {
    var made := Do(s, DropOldest(p));
    StepIsSound(s, DropOldest(p));
    RunIsSound(made, between);
    RunOnlyGrows(made, between);
    RunLeavesPhase(made, between, p);
  }

  // ---------- the newest frame ----------

  lemma {:induction false} RunAppends(s: State, first: seq<Step>, more: seq<Step>)
    ensures Run(s, first + more) == Run(Run(s, first), more)
    decreases first
  {
    if first == [] {
      assert [] + more == more;
    } else {
      assert (first + more)[1..] == first[1..] + more;
      RunAppends(if Enabled(s, first[0]) then Do(s, first[0]) else s, first[1..], more);
    }
  }

  lemma RunOne(s: State, step: Step)
    ensures Run(s, [step]) == if Enabled(s, step) then Do(s, step) else s
  {
    assert [step][1..] == [];
  }

  // Frames that are told apart by their payload.
  function Numbered(i: nat): Frame {
    Frame(1, Ascii("n") + seq(i, k => 0))
  }

  lemma NumberedDiffer(i: nat, j: nat)
    requires i != j
    ensures Numbered(i) != Numbered(j)
  {
    assert |Numbered(i).payload| != |Numbered(j).payload|;
  }

  function NumberedTo(n: nat): seq<Frame> {
    seq(n, i requires 0 <= i < n => Numbered(i))
  }

  // Publisher 0 puts n numbered frames into the queue.
  function Filling(n: nat): seq<Step> {
    seq(n, i requires 0 <= i < n => Publish(0, Numbered(i)))
  }

  lemma {:induction false} Fills(publishers: nat, n: nat)
    requires publishers >= 1 && n <= CAPACITY
    ensures var full := NumberedTo(n); Run(Start(publishers), Filling(n)) == Start(publishers).(queue := full, published := full, sent := full)
    decreases n
  {
    if n > 0 {
      Fills(publishers, n - 1);
      assert Filling(n) == Filling(n - 1) + [Publish(0, Numbered(n - 1))];
      assert NumberedTo(n) == NumberedTo(n - 1) + [Numbered(n - 1)];
      var s := Run(Start(publishers), Filling(n - 1));
      RunAppends(Start(publishers), Filling(n - 1), [Publish(0, Numbered(n - 1))]);
      RunOne(s, Publish(0, Numbered(n - 1)));
    }
  }

  // Both publishers find the queue full and make room; publisher 1 uses the first room for an older frame,
  // publisher 0 the second one, and the newest frame is left outside.
  function Overtaking(a: Frame, b: Frame, newest: Frame): seq<Step> {
    [Publish(0, a), DropOldest(0)] + [Publish(1, b), Publish(1, newest)] + [DropOldest(1), SendAgain(0)] + [SendAgain(1)]
  }

  lemma RunTwo(s: State, first: Step, second: Step)
    requires Enabled(s, first) && Enabled(Do(s, first), second)
    ensures Run(s, [first, second]) == Do(Do(s, first), second)
  {
    assert [first, second] == [first] + [second];
    RunAppends(s, [first], [second]);
    RunOne(s, first);
    RunOne(Do(s, first), second);
  }

  lemma OvertakingLoses(s: State, a: Frame, b: Frame, newest: Frame)
    requires |s.phases| >= 2 && s.phases[0].Resting? && s.phases[1].Resting? && |s.queue| == CAPACITY
    ensures var r := Run(s, Overtaking(a, b, newest));
            r.lost == s.lost + [newest] && r.published == s.published + [a] + [b] + [newest]
  {
    var s1 := Do(s, Publish(0, a));
    var s2 := Do(s1, DropOldest(0));
    var s3 := Do(s2, Publish(1, b));
    var s4 := Do(s3, Publish(1, newest));
    var s5 := Do(s4, DropOldest(1));
    var s6 := Do(s5, SendAgain(0));
    RunTwo(s, Publish(0, a), DropOldest(0));
    RunTwo(s2, Publish(1, b), Publish(1, newest));
    RunTwo(s4, DropOldest(1), SendAgain(0));
    RunOne(s6, SendAgain(1));
    RunAppends(s, [Publish(0, a), DropOldest(0)], [Publish(1, b), Publish(1, newest)]);
    RunAppends(s, [Publish(0, a), DropOldest(0)] + [Publish(1, b), Publish(1, newest)], [DropOldest(1), SendAgain(0)]);
    RunAppends(s, [Publish(0, a), DropOldest(0)] + [Publish(1, b), Publish(1, newest)] + [DropOldest(1), SendAgain(0)],
               [SendAgain(1)]);
  }

  function LosingRun(): seq<Step> {
    Filling(CAPACITY) + Overtaking(Numbered(CAPACITY), Numbered(CAPACITY + 1), Numbered(CAPACITY + 2))
  }

  // With two publishers or more the newest frame can be lost: all frames published here are distinct, and
  // the only one lost is the last of them.
  lemma NewestMayBeLost(publishers: nat)
    requires publishers >= 2
    ensures var end := Run(Start(publishers), LosingRun());
            && end.published == NumberedTo(103) && end.lost == [Numbered(102)]
            && (forall i, j | 0 <= i < j < |end.published| :: end.published[i] != end.published[j])
            && end.lost[0] == end.published[|end.published| - 1]
  {
    var n := CAPACITY;
    Fills(publishers, n);
    RunAppends(Start(publishers), Filling(n), Overtaking(Numbered(n), Numbered(n + 1), Numbered(n + 2)));
    OvertakingLoses(Run(Start(publishers), Filling(n)), Numbered(n), Numbered(n + 1), Numbered(n + 2));
    assert NumberedTo(n) + [Numbered(n)] + [Numbered(n + 1)] + [Numbered(n + 2)] == NumberedTo(n + 3);
    var all := NumberedTo(n + 3);
    forall i, j | 0 <= i < j < |all| ensures all[i] != all[j] {
      NumberedDiffer(i, j);
    }
  }

  lemma {:induction false} NobodyPublishes(s: State, steps: seq<Step>)
    requires s.phases == [] && s.lost == []
    ensures Run(s, steps).lost == []
    decreases steps
  {
    if steps != [] {
      NobodyPublishes(if Enabled(s, steps[0]) then Do(s, steps[0]) else s, steps[1..]);
    }
  }

  // Main result: no frame is ever lost on the way in exactly if there is at most one publisher.
  lemma NothingIsLostIffAlone(publishers: nat)
    ensures (forall steps :: Run(Start(publishers), steps).lost == []) <==> publishers <= 1
  {
    if publishers >= 2 {
      NewestMayBeLost(publishers);
      assert Run(Start(publishers), LosingRun()).lost != [];
    } else {
      forall steps ensures Run(Start(publishers), steps).lost == [] {
        if publishers == 0 {
          NobodyPublishes(Start(0), steps);
        } else {
          SinglePublisherKeepsNewest(steps);
        }
      }
    }
  }
}
