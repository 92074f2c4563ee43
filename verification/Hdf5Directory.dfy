/** The walk that patches the offsets into the finished HDF5 directory: right exactly if every name fits the
    sixteen bits of its length. */
module Hdf5Directory {
  import opened ByteStrings
  import opened Columns
  import opened Hdf5Format
  import opened Hdf5Theorems
  import opened PlainValues
  import opened Segments
  import opened Uir

  ghost predicate NamesFit(cols: seq<Column>) {
    forall c | c in cols :: |c.name| < 0x1_0000
  }

  // ---------- names that fit ----------

  // The entries in front of the cursor are patched, the others, `cols`, are still blank.
  ghost predicate Patching(all: Bytes, cursor: nat, cols: seq<Column>, parts: seq<Bytes>, running: nat, target: Bytes) {
    && |parts| == |cols| && cursor <= |all|
    && all[..cursor] + Entries(cols, parts, running) == target
    && all[cursor..] == Blank(cols)
  }

  // The length that is read at the cursor has sixteen bits.
  lemma LengthThere(all: Bytes, cursor: nat, cols: seq<Column>)
    requires cols != [] && cursor <= |all| && all[cursor..] == Blank(cols)
    ensures cursor + 2 <= |all| && FromLittleEndian(all[cursor..cursor + 2]) == |cols[0].name| % 0x1_0000
  {
    Uint16Wraps(|cols[0].name|);
    assert Blank(cols)[..2] == LittleEndian(2, |cols[0].name|);
    assert all[cursor..cursor + 2] == all[cursor..][..2];
  }

  lemma EntryIsThere(all: Bytes, cursor: nat, cols: seq<Column>)
    requires cols != [] && cursor <= |all| && all[cursor..] == Blank(cols)
    ensures cursor + |EntryFront(cols[0])| + 8 <= |all| && |EntryFront(cols[0])| == 11 + |cols[0].name|
  {}

  lemma SlotIsNext(all: Bytes, cursor: nat, cols: seq<Column>)
    requires cols != [] && |cols[0].name| < 0x1_0000 && cursor <= |all| && all[cursor..] == Blank(cols)
    ensures NextSlot(all, cursor) == Some(cursor + |EntryFront(cols[0])|) && cursor + |EntryFront(cols[0])| + 8 <= |all|
  {
    LengthThere(all, cursor, cols);
    EntryIsThere(all, cursor, cols);
  }

  lemma StepIsRight(all: Bytes, cursor: nat, cols: seq<Column>, parts: seq<Bytes>, running: nat, target: Bytes)
    returns (after: Bytes, cursor': nat)
    requires cols != [] && |cols[0].name| < 0x1_0000 && Patching(all, cursor, cols, parts, running, target)
    ensures Walk(all, cursor, parts, running) == Walk(after, cursor', parts[1..], running + |parts[0]|)
    ensures Patching(after, cursor', cols[1..], parts[1..], running + |parts[0]|, target)
  {
    SlotIsNext(all, cursor, cols);
    var front, tail := EntryFront(cols[0]), Entries(cols[1..], parts[1..], running + |parts[0]|);
    var at := cursor + |front|;
    after, cursor' := PutAt(all, at, running), at + 8;
    EntryPatched(all, after, cursor, front, NO_OFFSET, LittleEndian(8, running), Blank(cols[1..]), tail, target);
  }

  // Writing the offset into the entry at the cursor brings the patched part up to the next entry.
  lemma EntryPatched(before: Bytes, after: Bytes, cursor: nat, front: Bytes, zeros: Bytes, offset: Bytes,
                     rest: Bytes, tail: Bytes, target: Bytes)
    requires cursor <= |before| && before[cursor..] == front + zeros + rest && |zeros| == |offset|
    requires before[..cursor] + (front + offset + tail) == target
    requires var at := cursor + |front|;
             at + |zeros| <= |before| && after == before[..at] + offset + before[at + |zeros|..]
    ensures var at := cursor + |front| + |offset|;
            at <= |after| && after[..at] + tail == target && after[at..] == rest
  {
    SplitAt(before, cursor, front, zeros, rest);
    AroundOffset(after, before[..cursor] + front, offset, rest);
    EntryAdded(before[..cursor], front, offset, tail);
  }

  lemma SplitAt(all: Bytes, cursor: nat, front: Bytes, zeros: Bytes, rest: Bytes)
    requires cursor <= |all| && all[cursor..] == front + zeros + rest
    ensures |all| == cursor + |front| + |zeros| + |rest|
    ensures all[..cursor + |front|] == all[..cursor] + front && all[cursor + |front| + |zeros|..] == rest
  {
    assert all == all[..cursor] + (front + zeros + rest);
  }

  lemma AroundOffset(all: Bytes, before: Bytes, offset: Bytes, rest: Bytes)
    requires all == before + offset + rest
    ensures all[..|before| + |offset|] == before + offset && all[|before| + |offset|..] == rest
  {}

  lemma EntryAdded(done: Bytes, front: Bytes, offset: Bytes, tail: Bytes)
    ensures ((done + front) + offset) + tail == done + (front + offset + tail)
  {}

  lemma {:induction false} WalkIsRight(all: Bytes, cursor: nat, cols: seq<Column>, parts: seq<Bytes>, running: nat, target: Bytes)
    requires NamesFit(cols) && Patching(all, cursor, cols, parts, running, target)
    ensures Walk(all, cursor, parts, running) == Some(target)
    decreases cols
  {
    if cols == [] {
      assert all[..cursor] + [] == all;
    } else {
      assert cols[0] in cols;
      var after, cursor' := StepIsRight(all, cursor, cols, parts, running, target);
      WalkIsRight(after, cursor', cols[1..], parts[1..], running + |parts[0]|, target);
    }
  }

  // ---------- the slots of the offsets ----------

  // Where the offsets of the entries stand when the first entry starts at the cursor.
  function SlotsOf(cols: seq<Column>, cursor: nat): (slots: seq<nat>)
    ensures |slots| == |cols|
  {
    if cols == [] then []
    else [cursor + |EntryFront(cols[0])|] + SlotsOf(cols[1..], cursor + |EntryFront(cols[0])| + 8)
  }

  lemma {:induction false} OffsetIsThere(cols: seq<Column>, parts: seq<Bytes>, front: Bytes, offset: nat, i: nat)
    requires |parts| == |cols| && i < |cols|
    ensures PartAt(front + Entries(cols, parts, offset), SlotsOf(cols, |front|)[i], LittleEndian(8, OffsetOf(parts, i, offset)))
    decreases i
  {
    var first, number := EntryFront(cols[0]), LittleEndian(8, offset);
    var rest := Entries(cols[1..], parts[1..], offset + |parts[0]|);
    Reentered(front, first, number, rest);
    if i == 0 {
      InTheMiddle(front + first, number, rest);
    } else {
      OffsetIsThere(cols[1..], parts[1..], front + first + number, offset + |parts[0]|, i - 1);
    }
  }

  lemma {:induction false} BlankIsThere(cols: seq<Column>, front: Bytes, i: nat)
    requires i < |cols|
    ensures PartAt(front + Blank(cols), SlotsOf(cols, |front|)[i], NO_OFFSET)
    decreases i
  {
    var first, rest := EntryFront(cols[0]), Blank(cols[1..]);
    Reentered(front, first, NO_OFFSET, rest);
    if i == 0 {
      InTheMiddle(front + first, NO_OFFSET, rest);
    } else {
      BlankIsThere(cols[1..], front + first + NO_OFFSET, i - 1);
    }
  }

  lemma Reentered(a: Bytes, b: Bytes, c: Bytes, d: Bytes)
    ensures a + (b + c + d) == ((a + b) + c) + d
  {}

  // Slots are so far apart that eight bytes reach into one of them at most.
  ghost predicate Spaced(slots: seq<nat>) {
    forall i, j | 0 <= i < j < |slots| :: slots[i] + 16 <= slots[j]
  }

  lemma {:induction false} SlotsAreSpaced(cols: seq<Column>, cursor: nat)
    ensures Spaced(SlotsOf(cols, cursor))
    ensures forall i | 0 <= i < |cols| :: SlotsOf(cols, cursor)[i] >= cursor + 11
    ensures cols != [] ==> SlotsOf(cols, cursor)[0] == cursor + 11 + |cols[0].name|
  {
    if cols != [] {
      var next := cursor + |EntryFront(cols[0])| + 8;
      SlotsAreSpaced(cols[1..], next);
      var slots, more := SlotsOf(cols, cursor), SlotsOf(cols[1..], next);
      forall i, j | 0 <= i < j < |slots| ensures slots[i] + 16 <= slots[j] {
        assert slots[j] == more[j - 1] && (i > 0 ==> slots[i] == more[i - 1]);
      }
    }
  }

  // ---------- a name that does not fit ----------

  ghost predicate AllBlank(dir: Bytes, slots: seq<nat>) {
    forall i | 0 <= i < |slots| :: PartAt(dir, slots[i], NO_OFFSET)
  }

  ghost predicate SomeBlank(dir: Bytes, slots: seq<nat>) {
    exists i :: 0 <= i < |slots| && PartAt(dir, slots[i], NO_OFFSET)
  }

  lemma PutElsewhere(dir: Bytes, at: nat, v: nat, slot: nat)
    requires at + 8 <= |dir| && PartAt(dir, slot, NO_OFFSET) && (at + 8 <= slot || slot + 8 <= at)
    ensures PartAt(PutAt(dir, at, v), slot, NO_OFFSET)
  {
    var after := PutAt(dir, at, v);
    assert after[slot..slot + 8] == dir[slot..slot + 8];
  }

  // The slots that writing eight bytes at `at` cannot reach: all but one.
  lemma Untouched(slots: seq<nat>, at: nat) returns (left: seq<nat>)
    requires Spaced(slots) && slots != []
    ensures Spaced(left) && |left| == |slots| - 1 && forall s | s in left :: s in slots
    ensures forall i | 0 <= i < |left| :: at + 8 <= left[i] || left[i] + 8 <= at
  {
    var k := |slots| - 1;
    if i :| 0 <= i < |slots| && slots[i] < at + 8 && at < slots[i] + 8 {
      k := i;
    }
    left := slots[..k] + slots[k + 1..];
    forall i | 0 <= i < |left| ensures left[i] == slots[if i < k then i else i + 1] {}
  }

  // With more blank slots than offsets to come one of them stays blank.
  lemma {:induction false} TooFewWrites(dir: Bytes, cursor: nat, parts: seq<Bytes>, running: nat, slots: seq<nat>)
    requires |slots| > |parts| && Spaced(slots) && AllBlank(dir, slots)
    requires Walk(dir, cursor, parts, running).Some?
    ensures SomeBlank(Walk(dir, cursor, parts, running).value, slots)
    decreases parts
  {
    if parts == [] {
      assert PartAt(dir, slots[0], NO_OFFSET);
    } else {
      var at := NextSlot(dir, cursor).value;
      var after := PutAt(dir, at, running);
      var left := Untouched(slots, at);
      forall i | 0 <= i < |left| ensures PartAt(after, left[i], NO_OFFSET) {
        assert left[i] in slots;
        PutElsewhere(dir, at, running, left[i]);
      }
      TooFewWrites(after, at + 8, parts[1..], running + |parts[0]|, left);
      var end := Walk(dir, cursor, parts, running).value;
      var i :| 0 <= i < |left| && PartAt(end, left[i], NO_OFFSET);
      assert left[i] in slots;
    }
  }

  lemma OffsetIsNotBlank(v: nat)
    requires 0 < v < TWO_64
    ensures LittleEndian(8, v) != NO_OFFSET
  {
    Uint64Reads(v);
    Uint64Reads(0);
    ZeroBytes();
  }

  lemma ZeroBytes()
    ensures LittleEndian(8, 0) == NO_OFFSET
  {
    forall i: nat | i < 8 ensures ByteOf(0, i) == 0 {
      ZeroByte(i);
    }
  }

  lemma {:induction false} ZeroByte(i: nat)
    ensures ByteOf(0, i) == 0
  {
    if i > 0 {
      ZeroByte(i - 1);
    }
  }

  // The first long name sends its offset astray, far in front of its slot.
  lemma LongNameMisses(all: Bytes, cursor: nat, cols: seq<Column>, parts: seq<Bytes>, running: nat, target: Bytes)
    requires cols != [] && |cols[0].name| >= 0x1_0000 && Patching(all, cursor, cols, parts, running, target)
    requires 0 < running && running + |Concat(parts)| < TWO_64
    ensures Walk(all, cursor, parts, running) != Some(target)
  {
    LengthThere(all, cursor, cols);
    SlotsAreSpaced(cols, cursor);
    var next, slots := NextSlot(all, cursor), SlotsOf(cols, cursor);
    if next.Some? {
      BlankAfterMiss(all, cursor, cols, next.value, running);
      NoneIsBlank(all[..cursor], cols, parts, running);
      NeverTarget(PutAt(all, next.value, running), next.value + 8, parts[1..], running + |parts[0]|, slots, target);
    }
  }

  lemma NeverTarget(dir: Bytes, cursor: nat, parts: seq<Bytes>, running: nat, slots: seq<nat>, target: Bytes)
    requires |slots| > |parts| && Spaced(slots) && AllBlank(dir, slots) && !SomeBlank(target, slots)
    ensures Walk(dir, cursor, parts, running) != Some(target)
  {
    if Walk(dir, cursor, parts, running).Some? {
      TooFewWrites(dir, cursor, parts, running, slots);
    }
  }

  // With all offsets in their places no slot is blank.
  lemma NoneIsBlank(front: Bytes, cols: seq<Column>, parts: seq<Bytes>, running: nat)
    requires |parts| == |cols| && 0 < running && running + |Concat(parts)| < TWO_64
    ensures !SomeBlank(front + Entries(cols, parts, running), SlotsOf(cols, |front|))
  {
    var target, slots := front + Entries(cols, parts, running), SlotsOf(cols, |front|);
    forall i | 0 <= i < |slots| ensures !PartAt(target, slots[i], NO_OFFSET) {
      OffsetIsThere(cols, parts, front, running, i);
      OffsetWithin(parts, i, running);
      OffsetIsNotBlank(OffsetOf(parts, i, running));
    }
  }

  lemma BlankAfterMiss(all: Bytes, cursor: nat, cols: seq<Column>, at: nat, v: nat)
    requires cols != [] && cursor <= |all| && all[cursor..] == Blank(cols) && |cols[0].name| >= 0x1_0000
    requires at == cursor + 11 + |cols[0].name| % 0x1_0000 && at + 8 <= |all|
    ensures AllBlank(PutAt(all, at, v), SlotsOf(cols, cursor))
  {
    var slots := SlotsOf(cols, cursor);
    SlotsAreSpaced(cols, cursor);
    assert all == all[..cursor] + Blank(cols);
    forall i | 0 <= i < |slots| ensures PartAt(PutAt(all, at, v), slots[i], NO_OFFSET) {
      BlankIsThere(cols, all[..cursor], i);
      PutElsewhere(all, at, v, slots[i]);
    }
  }

  lemma {:induction false} OffsetWithin(parts: seq<Bytes>, i: nat, offset: nat)
    requires i <= |parts|
    ensures offset <= OffsetOf(parts, i, offset) <= offset + |Concat(parts)|
    decreases i
  {
    if i > 0 {
      OffsetWithin(parts[1..], i - 1, offset + |parts[0]|);
    }
  }

  lemma {:induction false} WalkGoesAstray(all: Bytes, cursor: nat, cols: seq<Column>, parts: seq<Bytes>, running: nat, target: Bytes)
    requires !NamesFit(cols) && Patching(all, cursor, cols, parts, running, target)
    requires 0 < running && running + |Concat(parts)| < TWO_64
    ensures Walk(all, cursor, parts, running) != Some(target)
    decreases cols
  {
    if |cols[0].name| >= 0x1_0000 {
      LongNameMisses(all, cursor, cols, parts, running, target);
    } else {
      var after, cursor' := StepIsRight(all, cursor, cols, parts, running, target);
      WalkGoesAstray(after, cursor', cols[1..], parts[1..], running + |parts[0]|, target);
    }
  }

  // Main result: the walk fills in exactly the offset of every payload if and only if every name is shorter
  // than 65536 bytes.
  lemma PatchesRightIff(cols: seq<Column>, parts: seq<Bytes>, offset: nat)
    requires |parts| == |cols| && 0 < offset && offset + |Concat(parts)| < TWO_64
    ensures Walk(BlankDirectory(cols), 4, parts, offset) == Some(Directory(cols, parts, offset)) <==> NamesFit(cols)
  {
    var all, target := BlankDirectory(cols), Directory(cols, parts, offset);
    assert all[..4] == LittleEndian(4, |cols|) && all[4..] == Blank(cols);
    if NamesFit(cols) {
      WalkIsRight(all, 4, cols, parts, offset, target);
    } else {
      WalkGoesAstray(all, 4, cols, parts, offset, target);
    }
  }

  // ---------- the file ----------

  lemma SameSuperblock(end: nat, end': nat)
    requires end == end'
    ensures Superblock(end) == Superblock(end')
  {}

  // The file around its directory.
  lemma AroundDirectory(lib: Library, cols: seq<Column>) returns (head: Bytes, rest: Bytes)
    ensures |head| == SUPERBLOCK && rest == Concat(PayloadsOf(lib, cols))
    ensures FileOf(lib, cols) == (head + Directory(cols, PayloadsOf(lib, cols), DataOffset(cols))) + rest
    ensures var dir := Walk(BlankDirectory(cols), 4, PayloadsOf(lib, cols), DataOffset(cols));
            Written(lib, cols) == if dir.None? then None else Some((head + dir.value) + rest)
  {
    var parts := PayloadsOf(lib, cols);
    head, rest := Superblock(DataOffset(cols) + |Concat(parts)|), Concat(parts);
    SameSuperblock(SUPERBLOCK + |BlankDirectory(cols)| + |Concat(parts)|, DataOffset(cols) + |Concat(parts)|);
    assert SUPERBLOCK + |BlankDirectory(cols)| == DataOffset(cols);
  }

  // The written file has every offset in its place exactly under the same condition.
  lemma WrittenIff(lib: Library, cols: seq<Column>)
    requires |FileOf(lib, cols)| < TWO_64
    ensures Written(lib, cols) == Some(FileOf(lib, cols)) <==> NamesFit(cols)
  {
    var parts, offset := PayloadsOf(lib, cols), DataOffset(cols);
    var head, rest := AroundDirectory(lib, cols);
    EntriesLength(cols, parts, offset);
    PatchesRightIff(cols, parts, offset);
    var end, dir := Walk(BlankDirectory(cols), 4, parts, offset), Directory(cols, parts, offset);
    if end.Some? {
      SameInside(head, end.value, dir, rest);
    }
  }

  lemma SameInside(a: Bytes, b: Bytes, b': Bytes, c: Bytes)
    requires |b| == |b'|
    ensures (a + b) + c == (a + b') + c <==> b == b'
  {
    if (a + b) + c == (a + b') + c {
      assert b == ((a + b) + c)[|a|..|a| + |b|];
      assert b' == ((a + b') + c)[|a|..|a| + |b'|];
    }
  }

  // A name of exactly 65536 bytes is written with the length 0: the only offset of this file lands in the
  // name, and its slot stays blank.
  lemma LongNameGoesAstray(lib: Library, name: GoBytes)
    requires |name| == 0x1_0000
    ensures var cols := [Column(name, 5, [])];
            && NextSlot(BlankDirectory(cols), 4) == Some(15) && Written(lib, cols) != Some(FileOf(lib, cols))
            && var dir := Walk(BlankDirectory(cols), 4, PayloadsOf(lib, cols), DataOffset(cols));
               dir.Some? && PartAt(dir.value, 15 + |name|, NO_OFFSET)
  {
    var cols := [Column(name, 5, [])];
    var all, parts, offset := BlankDirectory(cols), PayloadsOf(lib, cols), DataOffset(cols);
    assert all[..4] == LittleEndian(4, 1) && all[4..] == Blank(cols);
    assert all == all[..4] + Blank(cols);
    LengthThere(all, 4, cols);
    EntryIsThere(all, 4, cols);
    BlankIsThere(cols, all[..4], 0);
    PutElsewhere(all, 15, offset, 15 + |name|);
    assert parts[1..] == [];
    assert Walk(PutAt(all, 15, offset), 23, [], offset + |parts[0]|) == Some(PutAt(all, 15, offset));
    OneEmptyPayload(lib, cols, parts);
    assert |FileOf(lib, cols)| == offset by {
      EntriesLength(cols, parts, offset);
    }
    WrittenIff(lib, cols);
  }

  lemma OneEmptyPayload(lib: Library, cols: seq<Column>, parts: seq<Bytes>)
    requires |cols| == 1 && cols[0].values == [] && parts == PayloadsOf(lib, cols)
    ensures Concat(parts) == []
  {
    assert AdaptedAll(HDF5_CODING, lib, KindOf(cols[0].code), []) == [];
    assert parts == [[]];
    assert Concat([[]]) == [] + Concat([]);
  }

  // The directory entry of every column, as it stands in the file, holds the offset 56 + directory length +
  // sizes of the earlier payloads.
  lemma EntryHoldsOffset(lib: Library, cols: seq<Column>, i: nat)
    requires i < |cols| && NamesFit(cols) && |FileOf(lib, cols)| < TWO_64
    ensures Written(lib, cols) == Some(FileOf(lib, cols))
    ensures PartAt(FileOf(lib, cols), SlotsOf(cols, SUPERBLOCK + 4)[i],
                   LittleEndian(8, OffsetOf(PayloadsOf(lib, cols), i, DataOffset(cols))))
    ensures DataOffset(cols) == SUPERBLOCK + |BlankDirectory(cols)|
  {
    var parts, start := PayloadsOf(lib, cols), DataOffset(cols);
    WrittenIff(lib, cols);
    var head, rest := AroundDirectory(lib, cols);
    OffsetBehind(head, LittleEndian(4, |cols|), cols, parts, start, i, rest);
  }

  lemma OffsetBehind(head: Bytes, count: Bytes, cols: seq<Column>, parts: seq<Bytes>, start: nat, i: nat, rest: Bytes)
    requires |parts| == |cols| && i < |cols|
    ensures PartAt((head + (count + Entries(cols, parts, start))) + rest, SlotsOf(cols, |head| + |count|)[i],
                   LittleEndian(8, OffsetOf(parts, i, start)))
  {
    Rejoin(head, count, Entries(cols, parts, start));
    OffsetIsThere(cols, parts, head + count, start, i);
    InFrontStays((head + count) + Entries(cols, parts, start), rest, SlotsOf(cols, |head| + |count|)[i],
                 LittleEndian(8, OffsetOf(parts, i, start)));
  }

  // The payloads tile the file behind the directory, each at its offset.
  lemma PayloadsTile(lib: Library, cols: seq<Column>, i: nat)
    requires i < |cols| && NamesFit(cols) && |FileOf(lib, cols)| < TWO_64
    ensures Written(lib, cols) == Some(FileOf(lib, cols))
    ensures var parts, data, start := PayloadsOf(lib, cols), FileOf(lib, cols), DataOffset(cols);
            && OffsetOf(parts, 0, start) == start
            && OffsetOf(parts, i + 1, start) == OffsetOf(parts, i, start) + |parts[i]|
            && OffsetOf(parts, |parts|, start) == |data|
            && PartAt(data, OffsetOf(parts, i, start), parts[i])
  {
    WrittenIff(lib, cols);
    var head, rest := AroundDirectory(lib, cols);
    EntriesLength(cols, PayloadsOf(lib, cols), DataOffset(cols));
    var front := head + Directory(cols, PayloadsOf(lib, cols), DataOffset(cols));
    assert |front| == DataOffset(cols);
    PartsTile(PayloadsOf(lib, cols), front, i);
  }

  lemma InFrontStays(front: Bytes, rest: Bytes, at: nat, part: Bytes)
    requires PartAt(front, at, part)
    ensures PartAt(front + rest, at, part)
  {
    assert (front + rest)[at..at + |part|] == front[at..at + |part|];
  }

  // ---------- the superblock ----------

  // The file starts with the signature of HDF5 and says where it ends: at its own length.
  lemma EndOfFile(lib: Library, cols: seq<Column>)
    requires Written(lib, cols).Some? && |Written(lib, cols).value| < TWO_64
    ensures var data := Written(lib, cols).value;
            && |data| >= 56 && data[..8] == [0x89, 0x48, 0x44, 0x46, 0x0D, 0x0A, 0x1A, 0x0A] && data[8..14] == [0, 0, 0, 0, 8, 8]
            && FromLittleEndian(data[40..48]) == |data| && FromLittleEndian(data[48..56]) == 56
  {
    var data, parts := Written(lib, cols).value, PayloadsOf(lib, cols);
    var start := SUPERBLOCK + |BlankDirectory(cols)|;
    var patched := Walk(BlankDirectory(cols), 4, parts, start).value;
    SuperblockSays(|data|, Superblock(|data|), patched + Concat(parts), data);
  }

  lemma SuperblockSays(end: uint64, head: Bytes, rest: Bytes, data: Bytes)
    requires head == Superblock(end) && data == head + rest
    ensures data[..8] == SIGNATURE && data[8..14] == [0, 0, 0, 0, 8, 8]
    ensures FromLittleEndian(data[40..48]) == end && FromLittleEndian(data[48..56]) == 56
  {
    assert data[40..48] == LittleEndian(8, end) && data[48..56] == LittleEndian(8, 56);
    Uint64Reads(end);
    Uint64Reads(56);
  }
}
