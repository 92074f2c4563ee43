/** What the columnar formats share: byte strings laid end to end, and lists read off the front of one. */
module Segments {
  import opened ByteStrings

  // A list read off the front of some bytes.
  datatype Listing<+T> = NoListing | Listing(items: seq<T>, rest: Bytes)

  // Items in front of a list, if there is one.
  function Behind<T>(items: seq<T>, r: Listing<T>): Listing<T> {
    if r.NoListing? then NoListing else Listing(items + r.items, r.rest)
  }

  lemma BehindNone<T>(r: Listing<T>)
    ensures Behind([], r) == r
  {
    if r.Listing? {
      assert [] + r.items == r.items;
    }
  }

  lemma BehindTwice<T>(a: seq<T>, b: seq<T>, r: Listing<T>)
    ensures Behind(a, Behind(b, r)) == Behind(a + b, r)
  {
    if r.Listing? {
      assert a + (b + r.items) == (a + b) + r.items;
    }
  }

  function Concat(parts: seq<Bytes>): Bytes {
    if parts == [] then [] else parts[0] + Concat(parts[1..])
  }

  // Where part i starts when the first one starts at `offset`.
  function OffsetOf(parts: seq<Bytes>, i: nat, offset: nat): nat
    requires i <= |parts|
  {
    if i == 0 then offset else OffsetOf(parts[1..], i - 1, offset + |parts[0]|)
  }

  ghost predicate PartAt(data: Bytes, at: nat, part: Bytes) {
    at + |part| <= |data| && data[at..at + |part|] == part
  }

  // Behind `front` the parts follow each other without gaps up to the end, each at its offset.
  lemma PartsTile(parts: seq<Bytes>, front: Bytes, i: nat)
    requires i < |parts|
    ensures OffsetOf(parts, 0, |front|) == |front|
    ensures OffsetOf(parts, i + 1, |front|) == OffsetOf(parts, i, |front|) + |parts[i]|
    ensures OffsetOf(parts, |parts|, |front|) == |front + Concat(parts)|
    ensures PartAt(front + Concat(parts), OffsetOf(parts, i, |front|), parts[i])
  {
    NextOffset(parts, |front|, i);
    LastOffset(parts, |front|);
    PartIsThere(parts, front, i);
  }

  lemma {:induction false} PartIsThere(parts: seq<Bytes>, front: Bytes, i: nat)
    requires i < |parts|
    ensures PartAt(front + Concat(parts), OffsetOf(parts, i, |front|), parts[i])
    decreases i
  {
    Rejoin(front, parts[0], Concat(parts[1..]));
    if i == 0 {
      InTheMiddle(front, parts[0], Concat(parts[1..]));
    } else {
      PartIsThere(parts[1..], front + parts[0], i - 1);
    }
  }

  lemma InTheMiddle(a: Bytes, b: Bytes, c: Bytes)
    ensures PartAt((a + b) + c, |a|, b)
  {}

  lemma {:induction false} NextOffset(parts: seq<Bytes>, offset: nat, i: nat)
    requires i < |parts|
    ensures OffsetOf(parts, i + 1, offset) == OffsetOf(parts, i, offset) + |parts[i]|
    decreases i
  {
    if i > 0 {
      NextOffset(parts[1..], offset + |parts[0]|, i - 1);
    }
  }

  lemma {:induction false} LastOffset(parts: seq<Bytes>, offset: nat)
    ensures OffsetOf(parts, |parts|, offset) == offset + |Concat(parts)|
  {
    if parts != [] {
      LastOffset(parts[1..], offset + |parts[0]|);
    }
  }

  lemma FromHere(data: Bytes, at: nat, part: Bytes)
    requires PartAt(data, at, part)
    ensures data[at..] == part + data[at + |part|..]
  {}
}
