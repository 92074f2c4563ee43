/** What a subscription remembers: event ids it has seen, and nodes waiting for their batch. */
module EventDedup {
  import opened ByteStrings

  type Id = Bytes

  const SEEN_LIMIT: nat := 4096
  const EPOCH: nat := SEEN_LIMIT + 1

  // Whether an id is new, and the ids remembered afterwards.
  function Accepts(seen: set<Id>, id: Id): bool {
    id == [] || id !in seen
  }

  function After(seen: set<Id>, id: Id): set<Id> {
    if id == [] || id in seen then seen
    else if |seen| > SEEN_LIMIT then {id}
    else seen + {id}
  }

  class Subscription<Item> {
    var seen: set<Id>
    var batchNodes: seq<Item>
    const batchSize: int

    constructor (batchSize: int)
      ensures seen == {} && batchNodes == [] && this.batchSize == batchSize
    {
      this.batchSize := batchSize;
      seen, batchNodes := {}, [];
    }

    method Remember(id: Id) returns (isNew: bool)
      modifies this`seen
      ensures isNew == Accepts(old(seen), id) && seen == After(old(seen), id)
    {
      if id == [] {
        return true;
      }
      if id in seen {
        return false;
      }
      if |seen| > SEEN_LIMIT {
        seen := {};
      }
      seen := seen + {id};
      return true;
    }

    // Collects items; hands over all of them once there are batchSize.
    method AppendBatch(n: Item) returns (flushed: Option<seq<Item>>)
      modifies this`batchNodes
      ensures flushed.Some? <==> |old(batchNodes)| + 1 >= batchSize
      ensures (if flushed.Some? then flushed.value else []) + batchNodes == old(batchNodes) + [n]
      ensures flushed.Some? ==> batchNodes == []
      ensures |old(batchNodes)| < (if batchSize > 1 then batchSize else 1) ==>
                && |batchNodes| < (if batchSize > 1 then batchSize else 1)
                && (flushed.Some? ==> |flushed.value| == if batchSize > 1 then batchSize else 1)
    {
      batchNodes := batchNodes + [n];
      if |batchNodes| >= batchSize {
        var out := batchNodes;
        batchNodes := [];
        return Some(out);
      }
      return None;
    }
  }

  // ---------- runs ----------

  // The non-empty ids accepted in a run, in order, and what is remembered at its end.
  function Accepted(ids: seq<Id>): seq<Id> {
    if ids == [] then []
    else
      var front, id := ids[..|ids| - 1], ids[|ids| - 1];
      Accepted(front) + if id != [] && Accepts(Remembered(front), id) then [id] else []
  }

  function Remembered(ids: seq<Id>): set<Id> {
    if ids == [] then {} else After(Remembered(ids[..|ids| - 1]), ids[|ids| - 1])
  }

  function Elements(ids: seq<Id>): set<Id> {
    set id | id in ids
  }

  ghost predicate Distinct(ids: seq<Id>) {
    forall i, j | 0 <= i < j < |ids| :: ids[i] != ids[j]
  }

  // The accepted ids fall into epochs of 4097 distinct ones; the last epoch is what is remembered.
  ghost predicate Epochs(accepted: seq<Id>, seen: set<Id>)
    decreases |accepted|
  {
    if |accepted| <= EPOCH then
      Distinct(accepted) && seen == Elements(accepted)
    else
      Distinct(accepted[..EPOCH]) && Epochs(accepted[EPOCH..], seen)
  }

  lemma {:induction false} DistinctSize(ids: seq<Id>)
    requires Distinct(ids)
    ensures |Elements(ids)| == |ids|
  {
    if ids == [] {
      assert Elements(ids) == {};
    } else {
      var front, id := ids[..|ids| - 1], ids[|ids| - 1];
      DistinctSize(front);
      assert Elements(ids) == Elements(front) + {id};
      assert id !in Elements(front);
    }
  }

  lemma {:induction false} SeenIsBounded(accepted: seq<Id>, seen: set<Id>)
    requires Epochs(accepted, seen)
    ensures |seen| <= EPOCH
    decreases |accepted|
  {
    if |accepted| <= EPOCH {
      DistinctSize(accepted);
    } else {
      SeenIsBounded(accepted[EPOCH..], seen);
    }
  }

  lemma {:induction false} NextId(accepted: seq<Id>, seen: set<Id>, id: Id)
    requires Epochs(accepted, seen) && id != [] && id !in seen
    ensures Epochs(accepted + [id], After(seen, id))
    decreases |accepted|
  {
    var more := accepted + [id];
    if |accepted| < EPOCH {
      DistinctSize(accepted);
      assert Elements(more) == Elements(accepted) + {id};
    } else if |accepted| == EPOCH {
      DistinctSize(accepted);
      assert more[..EPOCH] == accepted && more[EPOCH..] == [id];
      assert Elements([id]) == {id};
    } else {
      NextId(accepted[EPOCH..], seen, id);
      assert more[..EPOCH] == accepted[..EPOCH] && more[EPOCH..] == accepted[EPOCH..] + [id];
    }
  }

  lemma {:induction false} RunHasEpochs(ids: seq<Id>)
    ensures Epochs(Accepted(ids), Remembered(ids))
  {
    if ids != [] {
      var front, id := ids[..|ids| - 1], ids[|ids| - 1];
      RunHasEpochs(front);
      if id != [] && Accepts(Remembered(front), id) {
        NextId(Accepted(front), Remembered(front), id);
      } else {
        assert Accepted(front) + [] == Accepted(front);
      }
    }
  }

  // Main result: a subscription never remembers more than 4097 ids, ...
  lemma MemoryIsBounded(ids: seq<Id>)
    ensures |Remembered(ids)| <= 4097
  {
    RunHasEpochs(ids);
    SeenIsBounded(Accepted(ids), Remembered(ids));
  }

  function Count(ids: seq<Id>, id: Id): nat {
    if ids == [] then 0 else (if ids[0] == id then 1 else 0) + Count(ids[1..], id)
  }

  lemma {:induction false} CountOfDistinct(ids: seq<Id>, id: Id)
    requires Distinct(ids)
    ensures Count(ids, id) <= 1
  {
    if ids != [] {
      CountOfDistinct(ids[1..], id);
      if ids[0] == id {
        CountOfAbsent(ids[1..], id);
      }
    }
  }

  lemma {:induction false} CountOfAbsent(ids: seq<Id>, id: Id)
    requires forall i | 0 <= i < |ids| :: ids[i] != id
    ensures Count(ids, id) == 0
  {
    if ids != [] {
      CountOfAbsent(ids[1..], id);
    }
  }

  lemma {:induction false} CountSplits(ids: seq<Id>, n: nat, id: Id)
    requires n <= |ids|
    ensures Count(ids, id) == Count(ids[..n], id) + Count(ids[n..], id)
  {
    if n > 0 {
      CountSplits(ids[1..], n - 1, id);
      assert ids[..n][1..] == ids[1..][..n - 1] && ids[n..] == ids[1..][n - 1..];
    } else {
      assert ids[..0] == [] && ids[0..] == ids;
    }
  }

  lemma {:induction false} OncePerEpoch(accepted: seq<Id>, seen: set<Id>, id: Id, epochs: nat)
    requires Epochs(accepted, seen) && |accepted| <= epochs * EPOCH
    ensures Count(accepted, id) <= epochs
    decreases |accepted|
  {
    if |accepted| <= EPOCH {
      CountOfDistinct(accepted, id);
    } else {
      CountSplits(accepted, EPOCH, id);
      CountOfDistinct(accepted[..EPOCH], id);
      OncePerEpoch(accepted[EPOCH..], seen, id, epochs - 1);
    }
  }

  // ... and of N accepted ids no single one is accepted more than ceil(N / 4097) times.
  lemma RarelyAcceptedTwice(ids: seq<Id>, id: Id)
    ensures Count(Accepted(ids), id) <= (|Accepted(ids)| + 4096) / 4097
  {
    RunHasEpochs(ids);
    OncePerEpoch(Accepted(ids), Remembered(ids), id, (|Accepted(ids)| + 4096) / 4097);
  }

  lemma {:induction false} RememberedIsSeen(ids: seq<Id>, id: Id)
    requires id in Remembered(ids)
    ensures id in ids
  {
    if ids[|ids| - 1] != id {
      RememberedIsSeen(ids[..|ids| - 1], id);
    }
  }

  lemma NewIdIsAccepted(ids: seq<Id>, id: Id, more: seq<Id>)
    requires id != [] && id !in ids && more == ids + [id]
    ensures Accepted(more) == Accepted(ids) + [id] && Remembered(more) == After(Remembered(ids), id)
  {
    if id in Remembered(ids) {
      RememberedIsSeen(ids, id);
    }
    assert more[..|more| - 1] == ids;
  }

  lemma {:induction false} NewAreAccepted(ids: seq<Id>)
    requires Distinct(ids) && [] !in ids
    ensures Accepted(ids) == ids
  {
    if ids != [] {
      var front, id := ids[..|ids| - 1], ids[|ids| - 1];
      NewAreAccepted(front);
      assert forall i | 0 <= i < |front| :: front[i] == ids[i] && ids[i] != id;
      assert front + [id] == ids;
      NewIdIsAccepted(front, id, ids);
    }
  }

  // The bound is reached: of 4097 distinct ids none is forgotten, and the next one makes all others forgotten, so that
  // they are accepted again.
  lemma ForgetsAll(ids: seq<Id>, newest: Id, id: Id)
    requires |ids| == 4097 && Distinct(ids) && [] !in ids && newest != [] && newest !in ids && id in ids
    ensures Remembered(ids) == Elements(ids) && |Remembered(ids)| == 4097
    ensures Remembered(ids + [newest]) == {newest} && Accepts(Remembered(ids + [newest]), id)
  {
    NewAreAccepted(ids);
    RunHasEpochs(ids);
    DistinctSize(ids);
    NewIdIsAccepted(ids, newest, ids + [newest]);
  }

  // ---------- forgetting ----------

  // The number of times the memory was emptied.
  function Resets(ids: seq<Id>): nat {
    if ids == [] then 0
    else
      var front, id := ids[..|ids| - 1], ids[|ids| - 1];
      Resets(front) + if id != [] && id !in Remembered(front) && |Remembered(front)| > SEEN_LIMIT then 1 else 0
  }

  lemma {:induction false} RememberedUntilReset(ids: seq<Id>, from: nat, id: Id)
    requires from <= |ids| && id in Remembered(ids[..from]) && Resets(ids) == Resets(ids[..from])
    ensures id in Remembered(ids)
    decreases |ids|
  {
    assert ids[..|ids|] == ids;
    if from < |ids| {
      var front := ids[..|ids| - 1];
      assert front[..from] == ids[..from];
      ResetsGrow(front, from);
      RememberedUntilReset(front, from, id);
    }
  }

  lemma {:induction false} ResetsGrow(ids: seq<Id>, from: nat)
    requires from <= |ids|
    ensures Resets(ids[..from]) <= Resets(ids)
    decreases |ids|
  {
    assert ids[..|ids|] == ids;
    if from < |ids| {
      assert ids[..|ids| - 1][..from] == ids[..from];
      ResetsGrow(ids[..|ids| - 1], from);
    }
  }

  // Two acceptances of one id always have a reset between them.
  lemma ResetInBetween(ids: seq<Id>, i: nat, j: nat)
    requires i < j < |ids| && ids[i] == ids[j] != []
    requires Accepts(Remembered(ids[..i]), ids[i]) && Accepts(Remembered(ids[..j]), ids[j])
    ensures Resets(ids[..i + 1]) < Resets(ids[..j + 1])
  {
    var upTo, after := ids[..j], ids[..j + 1];
    assert after[..j] == upTo && upTo[..i + 1] == ids[..i + 1];
    RememberedNow(ids, i);
    ResetsGrow(upTo, i + 1);
    if Resets(upTo) == Resets(ids[..i + 1]) {
      RememberedUntilReset(upTo, i + 1, ids[i]);
    }
    ResetsGrow(after, j);
  }

  lemma RememberedNow(ids: seq<Id>, i: nat)
    requires i < |ids| && ids[i] != []
    ensures ids[i] in Remembered(ids[..i + 1])
  {
    assert ids[..i + 1][..i] == ids[..i];
  }
}
