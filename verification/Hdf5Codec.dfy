/** The HDF5 writer, which patches the offsets into the finished directory, and the reader. */
module Hdf5Codec {
  import opened ByteStrings
  import opened Columns
  import opened Hdf5Format
  import opened KeyOrder
  import opened PlainValues
  import opened Segments
  import opened Uir

  // ---------- writing ----------

  method WritePayloads(lib: Library, cols: seq<Column>) returns (payloads: seq<Bytes>)
    ensures payloads == PayloadsOf(lib, cols)
  {
    payloads := [];
    for i := 0 to |cols|
      invariant |payloads| == i && payloads == PayloadsOf(lib, cols)[..i]
    {
      var p := WriteValues(HDF5_CODING, lib, KindOf(cols[i].code), cols[i].values);
      payloads := payloads + [p];
    }
  }

  method WriteDirectory(cols: seq<Column>) returns (dir: Bytes)
    ensures dir == BlankDirectory(cols)
  {
    dir := LittleEndian(4, |cols|);
    assert cols[0..] == cols;
    for i := 0 to |cols|
      invariant dir + Blank(cols[i..]) == BlankDirectory(cols)
    {
      dir := WriteBlankEntry(dir, cols[i..]);
      assert cols[i..][1..] == cols[i + 1..];
    }
    assert dir + [] == dir;
  }

  method WriteBlankEntry(dir: Bytes, cols: seq<Column>) returns (more: Bytes)
    requires cols != []
    ensures more + Blank(cols[1..]) == dir + Blank(cols)
  {
    var entry := EntryFront(cols[0]) + NO_OFFSET;
    Rejoin(dir, entry, Blank(cols[1..]));
    more := dir + entry;
  }

  // binary.LittleEndian.PutUint64
  method PutUint64(a: array<byte>, at: nat, v: nat)
    requires at + 8 <= a.Length
    modifies a
    ensures a[..] == PutAt(old(a[..]), at, v)
  {
    var b := LittleEndian(8, v);
    for k := 0 to 8
      invariant a[..at] == old(a[..at]) && a[at + 8..] == old(a[at + 8..])
      invariant a[at..at + k] == b[..k]
    {
      a[at + k] := b[k];
    }
    assert a[..] == a[..at] + a[at..at + 8] + a[at + 8..];
    assert old(a[..at]) == old(a[..])[..at] && old(a[at + 8..]) == old(a[..])[at + 8..];
  }

  // Fills in the offsets, walking over the entries by the lengths that are written in them; fails where the
  // source slices out of range.
  method PatchOffsets(patched: array<byte>, payloads: seq<Bytes>, dataOff: nat) returns (ok: bool, running: nat)
    modifies patched
    ensures ok <==> Walk(old(patched[..]), 4, payloads, dataOff).Some?
    ensures ok ==> Walk(old(patched[..]), 4, payloads, dataOff) == Some(patched[..])
    ensures ok ==> running == dataOff + |Concat(payloads)|
  {
    var cursor: nat := 4;
    running := dataOff;
    ghost var all, total := Walk(patched[..], 4, payloads, dataOff), dataOff + |Concat(payloads)|;
    ghost var rest := payloads;
    for i := 0 to |payloads|
      invariant rest == payloads[i..]
      invariant Walk(patched[..], cursor, rest, running) == all
      invariant running + |Concat(rest)| == total
    {
      ok, cursor := PatchEntry(patched, cursor, running);
      if !ok {
        return false, running;
      }
      assert rest[0] == payloads[i] && rest[1..] == payloads[i + 1..];
      running := running + |payloads[i]|;
      rest := rest[1..];
    }
    ok := true;
  }

  method PatchEntry(patched: array<byte>, cursor: nat, running: nat) returns (ok: bool, cursor': nat)
    modifies patched
    ensures ok <==> NextSlot(old(patched[..]), cursor).Some?
    ensures ok ==> cursor' == NextSlot(old(patched[..]), cursor).value + 8
    ensures ok ==> patched[..] == PutAt(old(patched[..]), cursor' - 8, running)
  {
    if cursor + 2 > patched.Length {
      return false, cursor;
    }
    assert patched[..][cursor..cursor + 2] == patched[cursor..cursor + 2];
    var nlen := FromLittleEndian(patched[cursor..cursor + 2]);
    cursor' := cursor + 2 + nlen + 1 + 8;
    if cursor' + 8 > patched.Length {
      return false, cursor;
    }
    PutUint64(patched, cursor', running);
    return true, cursor' + 8;
  }

  method GenerateHdf5(lib: Library, n: Node) returns (r: Option<Bytes>)
    ensures r == Encoded(lib, n)
  {
    var rows := RowsOf(n);
    if !NoNil(rows) {
      return None;
    }
    var cols := BuildColumns(rows, CodeOf);
    var payloads := WritePayloads(lib, cols);
    var dir := WriteDirectory(cols);
    r := WriteFile(dir, payloads);
  }

  method WriteFile(dir: Bytes, payloads: seq<Bytes>) returns (r: Option<Bytes>)
    ensures r == Patched(dir, payloads)
  {
    var patched := new byte[|dir|](i requires 0 <= i < |dir| => dir[i]);
    assert patched[..] == dir;
    var ok, running := PatchOffsets(patched, payloads, SUPERBLOCK + |dir|);
    if !ok {
      return None;
    }
    r := AppendAll(Superblock(running) + patched[..], payloads);
  }

  method AppendAll(front: Bytes, payloads: seq<Bytes>) returns (r: Option<Bytes>)
    ensures r == Some(front + Concat(payloads))
  {
    var buf := front;
    assert payloads[0..] == payloads;
    for i := 0 to |payloads|
      invariant buf + Concat(payloads[i..]) == front + Concat(payloads)
    {
      assert payloads[i..][1..] == payloads[i + 1..];
      Rejoin(buf, payloads[i], Concat(payloads[i + 1..]));
      buf := buf + payloads[i];
    }
    assert buf + [] == buf;
    return Some(buf);
  }

  // ---------- reading ----------

  method ReadDirectory(count: nat, dir: Bytes) returns (r: Option<seq<Meta>>)
    ensures var all := ReadMetas(count, dir); r == if all.NoListing? then None else Some(all.items)
  {
    var metas: seq<Meta>, rest := [], dir;
    ghost var left := count;
    BehindNone(ReadMetas(count, dir));
    for i := 0 to count
      invariant left == count - i
      invariant Behind(metas, ReadMetas(left, rest)) == ReadMetas(count, dir)
    {
      var m := ReadMeta(rest);
      if m.NoMeta? {
        return None;
      }
      BehindTwice(metas, [m.meta], ReadMetas(left - 1, m.rest));
      metas, rest, left := metas + [m.meta], m.rest, left - 1;
    }
    assert metas + [] == metas;
    return Some(metas);
  }

  method ReadAllColumns(data: Bytes, metas: seq<Meta>) returns (r: Option<seq<Column>>)
    ensures r == ReadColumns(data, metas)
  {
    var cols: seq<Column> := [];
    assert metas[0..] == metas;
    PrefixedByNothing(ReadColumns(data, metas));
    for i := 0 to |metas|
      invariant Prefixed(cols, ReadColumns(data, metas[i..])) == ReadColumns(data, metas)
    {
      var m := metas[i];
      assert metas[i..][1..] == metas[i + 1..];
      if m.offset > |data| {
        return None;
      }
      var values := ReadAll(data[m.offset..], KindOf(m.code), m.count);
      if values.None? {
        return None;
      }
      PrefixedTwice(cols, [Column(m.name, m.code, values.value)], ReadColumns(data, metas[i + 1..]));
      cols := cols + [Column(m.name, m.code, values.value)];
    }
    assert cols + [] == cols;
    return Some(cols);
  }

  method BuildTable(cols: seq<Column>) returns (t: Node)
    ensures t == TableOf(cols)
  {
    var nRows := if cols == [] then 0 else |cols[0].values|;
    if nRows == 1 {
      t := BuildRow(cols, 0, TypeOfCode, Ascii("Root"));
      return;
    }
    var rows := BuildRows(cols, nRows, TypeOfCode);
    t := NewNode(TypeArray, Ascii("Root"), NoValue);
    t := t.(children := rows);
  }

  method ParseHdf5(data: Bytes) returns (r: Option<Node>)
    ensures r == Parsed(data)
  {
    if |data| < 16 || data[..8] != SIGNATURE {
      return None;
    }
    if data[8] != 0 || |data| < SUPERBLOCK {
      return None;
    }
    var dirOff := FromLittleEndian(data[48..56]);
    if dirOff >= |data| {
      return None;
    }
    var dir := data[dirOff..];
    if |dir| < 4 {
      return None;
    }
    var metas := ReadDirectory(FromLittleEndian(dir[..4]), dir[4..]);
    if metas.None? {
      return None;
    }
    var cols := ReadAllColumns(data, metas.value);
    if cols.None? {
      return None;
    }
    var t := BuildTable(cols.value);
    return Some(t);
  }
}
