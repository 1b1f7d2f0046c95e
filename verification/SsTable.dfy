/** Sorted tables: how records become blocks, and how the index points at them. */
module SsTables {
  import opened Types
  import opened Coding
  import opened Compaction

  const HEADER_SIZE: nat := 16
  const WORD_SIZE: nat := 4
  const DATA_BLOCK: nat := 1

  type Checksum = Bytes -> nat

  datatype IndexEntry = IndexEntry(key: Bytes, offset: nat, size: nat)

  // ---- blocks as bytes ----

  function EncodeRec(r: Rec): (b: Bytes)
    ensures |b| >= 2
  {
    PutSlice(r.key) + PutSlice(r.value)
  }

  function Concat<T>(parts: seq<seq<T>>): seq<T> {
    if parts == [] then [] else Concat(parts[..|parts| - 1]) + parts[|parts| - 1]
  }

  function RecList(rs: Table): (parts: seq<Bytes>)
    ensures |parts| == |rs|
  {
    seq(|rs|, i requires 0 <= i < |rs| => EncodeRec(rs[i]))
  }

  function EncodeBlock(rs: Table): (b: Bytes)
    ensures b == [] <==> rs == []
  {
    Concat(RecList(rs))
  }

  // A cast to 32 bits.
  function Low32(v: nat): (r: nat)
    ensures v < WORD32_SPAN ==> r == v
  {
    v % 0x1_0000_0000
  }

  // A 32-bit field.
  function Word(v: nat): (b: Bytes)
    ensures |b| == 4
  {
    PutFixed(Low32(v), WORD_SIZE)
  }

  // Type, size, checksum and compression, four bytes each.
  function BlockHeader(crc: Checksum, kind: nat, data: Bytes): (h: Bytes)
    ensures |h| == HEADER_SIZE
  {
    Word(kind) + Word(|data|) + Word(crc(data)) + Word(0)
  }

  function SizeOf(rs: Table): nat {
    HEADER_SIZE + |EncodeBlock(rs)|
  }

  function Block(crc: Checksum, rs: Table): (b: Bytes)
    ensures |b| == SizeOf(rs)
  {
    BlockHeader(crc, DATA_BLOCK, EncodeBlock(rs)) + EncodeBlock(rs)
  }

  function BlockList(crc: Checksum, blocks: seq<Table>): (parts: seq<Bytes>)
    ensures |parts| == |blocks| && forall i | 0 <= i < |parts| :: parts[i] == Block(crc, blocks[i])
  {
    seq(|blocks|, i requires 0 <= i < |blocks| => Block(crc, blocks[i]))
  }

  function Blocks(crc: Checksum, blocks: seq<Table>): Bytes {
    Concat(BlockList(crc, blocks))
  }

  // A block's entry: its first key, where it starts, and its size in 32 bits.
  function EntryFor(rs: Table, offset: nat): IndexEntry {
    IndexEntry(if rs == [] then [] else rs[0].key, offset, Low32(SizeOf(rs)))
  }

  // Where block i starts; the end of the data for i == |blocks|.
  function StartOf(crc: Checksum, blocks: seq<Table>, i: nat): nat
    requires i <= |blocks|
  {
    |Blocks(crc, blocks[..i])|
  }

  function IndexOf(crc: Checksum, blocks: seq<Table>): (index: seq<IndexEntry>)
    ensures |index| == |blocks|
    ensures forall i | 0 <= i < |blocks| :: index[i] == EntryFor(blocks[i], StartOf(crc, blocks, i))
  {
    seq(|blocks|, i requires 0 <= i < |blocks| => EntryFor(blocks[i], StartOf(crc, blocks, i)))
  }

  lemma EncodeBlockGrows(rs: Table, r: Rec)
    ensures EncodeBlock(rs + [r]) == EncodeBlock(rs) + EncodeRec(r)
  {
    assert RecList(rs + [r])[..|rs|] == RecList(rs);
  }

  lemma BlocksGrow(crc: Checksum, blocks: seq<Table>, rs: Table)
    ensures Blocks(crc, blocks + [rs]) == Blocks(crc, blocks) + Block(crc, rs)
    ensures Concat(blocks + [rs]) == Concat(blocks) + rs
  {
    assert (blocks + [rs])[..|blocks|] == blocks;
    assert BlockList(crc, blocks + [rs])[..|blocks|] == BlockList(crc, blocks);
  }

  lemma IndexGrows(crc: Checksum, blocks: seq<Table>, rs: Table)
    ensures IndexOf(crc, blocks + [rs]) == IndexOf(crc, blocks) + [EntryFor(rs, |Blocks(crc, blocks)|)]
  {
    forall i | 0 <= i <= |blocks|
      ensures StartOf(crc, blocks + [rs], i) == StartOf(crc, blocks, i)
    {
      assert (blocks + [rs])[..i] == blocks[..i];
    }
    assert blocks[..|blocks|] == blocks;
  }

  lemma {:induction false} PartIsThere<T>(parts: seq<seq<T>>, i: nat)
    requires i < |parts|
    ensures |Concat(parts[..i + 1])| == |Concat(parts[..i])| + |parts[i]| <= |Concat(parts)|
    ensures Concat(parts)[|Concat(parts[..i])|..|Concat(parts[..i + 1])|] == parts[i]
  {
    var n := |parts| - 1;
    assert parts[..i + 1][..i] == parts[..i];
    if i == n {
      assert parts[..i + 1] == parts;
    } else {
      PartIsThere(parts[..n], i);
      assert parts[..n][..i] == parts[..i] && parts[..n][..i + 1] == parts[..i + 1];
      SliceOfPrefix(Concat(parts[..n]), parts[n], |Concat(parts[..i])|, |Concat(parts[..i + 1])|);
    }
  }

  lemma SliceOfPrefix<T>(a: seq<T>, b: seq<T>, lo: nat, hi: nat)
    requires lo <= hi <= |a|
    ensures (a + b)[lo..hi] == a[lo..hi]
  {
  }

  // ---- the layout of a table ----

  // A block stands where it starts, and the next one starts where it ends.
  lemma BlockIsThere(crc: Checksum, blocks: seq<Table>, i: nat)
    requires i < |blocks|
    ensures StartOf(crc, blocks, i + 1) == StartOf(crc, blocks, i) + SizeOf(blocks[i]) <= |Blocks(crc, blocks)|
    ensures Blocks(crc, blocks)[StartOf(crc, blocks, i)..StartOf(crc, blocks, i + 1)] == Block(crc, blocks[i])
  {
    var parts := BlockList(crc, blocks);
    PartIsThere(parts, i);
    assert BlockList(crc, blocks[..i]) == parts[..i] && BlockList(crc, blocks[..i + 1]) == parts[..i + 1];
  }

  lemma FirstStart(crc: Checksum, blocks: seq<Table>)
    ensures StartOf(crc, blocks, 0) == 0
  {
  }

  // With sizes that fit, the entries tile the data without a gap.
  lemma BlocksAreContiguous(crc: Checksum, blocks: seq<Table>, i: nat)
    requires i < |blocks| && SizeOf(blocks[i]) < WORD32_SPAN
    ensures var index := IndexOf(crc, blocks);
            && (i == 0 ==> index[i].offset == 0)
            && index[i].offset + index[i].size ==
                 if i + 1 < |blocks| then index[i + 1].offset else |Blocks(crc, blocks)|
  {
    hide SizeOf, Concat, Blocks;
    FirstStart(crc, blocks);
    BlockIsThere(crc, blocks, i);
    assert blocks[..|blocks|] == blocks;
  }

  // ---- what a writer has done so far ----

  // The last entry while its block is still in the buffer.
  function OpenEntry(pending: Table, offset: nat): seq<IndexEntry> {
    if pending == [] then [] else [IndexEntry(pending[0].key, offset, 0)]
  }

  function LastKey(t: Table): Bytes {
    if t == [] then [] else t[|t| - 1].key
  }

  // What the writer has done: the blocks written, the records in its buffer, and the index.
  datatype Layout = Layout(blocks: seq<Table>, pending: Table, file: Bytes, buffer: Bytes, index: seq<IndexEntry>)

  // The blocks are in the file, the pending records in the buffer, and the index covers both.
  ghost predicate LaidOut(crc: Checksum, added: Table, l: Layout) {
    && added == Concat(l.blocks) + l.pending && [] !in l.blocks
    && l.file == Blocks(crc, l.blocks) && l.buffer == EncodeBlock(l.pending)
    && l.index == IndexOf(crc, l.blocks) + OpenEntry(l.pending, |l.file|)
  }

  lemma BufferIs(crc: Checksum, added: Table, l: Layout)
    requires LaidOut(crc, added, l)
    ensures l.buffer == EncodeBlock(l.pending)
  {
  }

  lemma AfterAppend(crc: Checksum, added: Table, l: Layout, r: Rec) returns (l': Layout)
    requires LaidOut(crc, added, l)
    ensures LaidOut(crc, added + [r], l') && l'.file == l.file && l'.buffer == l.buffer + EncodeRec(r)
    ensures l'.blocks == l.blocks && l'.pending == l.pending + [r]
    ensures l'.index == if l.buffer == [] then l.index + [IndexEntry(r.key, |l.file|, 0)] else l.index
  {
    EncodeBlockGrows(l.pending, r);
    assert Concat(l.blocks) + (l.pending + [r]) == (Concat(l.blocks) + l.pending) + [r];
    l' := Layout(l.blocks, l.pending + [r], l.file, l.buffer + EncodeRec(r),
                 if l.buffer == [] then l.index + [IndexEntry(r.key, |l.file|, 0)] else l.index);
  }

  lemma AfterBlock(crc: Checksum, added: Table, l: Layout) returns (l': Layout)
    requires LaidOut(crc, added, l) && l.buffer != []
    ensures LaidOut(crc, added, l') && l'.buffer == [] && |l.index| > 0
    ensures l'.blocks == l.blocks + [l.pending] && l'.pending == []
    ensures l'.file == l.file + (BlockHeader(crc, DATA_BLOCK, l.buffer) + l.buffer)
    ensures l'.index == l.index[|l.index| - 1 := l.index[|l.index| - 1].(size := Low32(HEADER_SIZE + |l.buffer|))]
  {
    hide BlockHeader, Concat;
    BlocksGrow(crc, l.blocks, l.pending);
    IndexGrows(crc, l.blocks, l.pending);
    ReplaceLast(IndexOf(crc, l.blocks), OpenEntry(l.pending, |l.file|)[0], EntryFor(l.pending, |l.file|));
    var index := IndexOf(crc, l.blocks + [l.pending]);
    assert index + [] == index;
    l' := Layout(l.blocks + [l.pending], [], Blocks(crc, l.blocks + [l.pending]), [], index);
  }

  lemma ReplaceLast(s: seq<IndexEntry>, was: IndexEntry, now: IndexEntry)
    ensures (s + [was])[|s| := now] == s + [now]
  {
  }

  // ---- where a block ends ----

  // The last record went into a block that was not full yet, or opened it.
  predicate HadRoom(limit: nat, rs: Table) {
    |rs| <= 1 || |EncodeBlock(rs[..|rs| - 1])| < limit
  }

  predicate Full(limit: nat, rs: Table) {
    |EncodeBlock(rs)| >= limit
  }

  // Blocks closed while records come in are full, and none is a record longer than that takes.
  ghost predicate Filling(limit: nat, l: Layout) {
    (forall b | b in l.blocks :: Full(limit, b) && HadRoom(limit, b)) && HadRoom(limit, l.pending)
  }

  // Only the last block of a finished table may fall short.
  ghost predicate CutAt(limit: nat, blocks: seq<Table>) {
    forall i | 0 <= i < |blocks| :: HadRoom(limit, blocks[i]) && (i + 1 < |blocks| ==> Full(limit, blocks[i]))
  }

  lemma FillingOn(crc: Checksum, added: Table, limit: nat, l: Layout, l': Layout, r: Rec)
    requires LaidOut(crc, added, l) && Filling(limit, l) && (l.buffer == [] || |l.buffer| < limit)
    requires l'.blocks == l.blocks && l'.pending == l.pending + [r]
    ensures Filling(limit, l')
  {
    assert (l.pending + [r])[..|l.pending|] == l.pending;
  }

  lemma FullBlockCloses(crc: Checksum, added: Table, limit: nat, l: Layout, l': Layout)
    requires LaidOut(crc, added, l) && Filling(limit, l) && |l.buffer| >= limit
    requires l'.blocks == (if l.pending == [] then l.blocks else l.blocks + [l.pending]) && l'.pending == []
    ensures Filling(limit, l')
  {
  }

  // Finishing closes what is pending, full or not.
  lemma FinishedIsCut(limit: nat, l: Layout, blocks: seq<Table>)
    requires Filling(limit, l) && blocks == if l.pending == [] then l.blocks else l.blocks + [l.pending]
    ensures CutAt(limit, blocks)
  {
    forall i | 0 <= i < |blocks|
      ensures HadRoom(limit, blocks[i]) && (i + 1 < |blocks| ==> Full(limit, blocks[i]))
    {
      if i < |l.blocks| {
        assert blocks[i] == l.blocks[i] && l.blocks[i] in l.blocks;
      }
    }
  }

  lemma {:induction false} FirstPart<T>(parts: seq<seq<T>>)
    requires parts != []
    ensures Concat(parts) == parts[0] + Concat(parts[1..])
  {
    var n := |parts| - 1;
    if n > 0 {
      FirstPart(parts[..n]);
      assert parts[..n][1..] == parts[1..][..n - 1];
    }
  }

  lemma {:induction false} PrefixIsSmaller(rs: Table, n: nat)
    requires n <= |rs|
    ensures |EncodeBlock(rs[..n])| <= |EncodeBlock(rs)|
  {
    if n < |rs| {
      var init := rs[..|rs| - 1];
      PrefixIsSmaller(init, n);
      EncodeBlockGrows(init, rs[|rs| - 1]);
      assert init + [rs[|rs| - 1]] == rs && init[..n] == rs[..n];
    } else {
      assert rs[..n] == rs;
    }
  }

  // A full block is not the beginning of a longer one.
  lemma FullBlockEnds(limit: nat, a: Table, b: Table)
    requires a != [] && Full(limit, a) && |a| < |b|
    ensures b[..|a|] == a ==> !HadRoom(limit, b)
  {
    var init := b[..|b| - 1];
    PrefixIsSmaller(init, |a|);
    assert init[..|a|] == b[..|a|];
  }

  lemma NoPartsNoRecords(parts: seq<Table>)
    requires [] !in parts
    ensures Concat(parts) == [] <==> parts == []
  {
    if parts != [] {
      FirstPart(parts);
      assert parts[0] in parts;
    }
  }

  lemma ShorterFirstDiffers(limit: nat, a: seq<Table>, b: seq<Table>)
    requires a != [] && b != [] && [] !in a && CutAt(limit, a) && CutAt(limit, b) && |a[0]| < |b[0]|
    ensures Concat(a) != Concat(b)
  {
    hide Full, HadRoom;
    FirstPart(a);
    FirstPart(b);
    assert a[0] in a;
    if |a| > 1 {
      FullBlockEnds(limit, a[0], b[0]);
      assert Concat(a)[..|a[0]|] == a[0] && Concat(b)[..|a[0]|] == b[0][..|a[0]|];
    }
  }

  // The records and the block size determine the blocks.
  lemma {:induction false} OneWayToCut(limit: nat, a: seq<Table>, b: seq<Table>)
    requires [] !in a && [] !in b && CutAt(limit, a) && CutAt(limit, b) && Concat(a) == Concat(b)
    ensures a == b
    decreases |a|
  {
    hide CutAt, Concat;
    NoPartsNoRecords(a);
    NoPartsNoRecords(b);
    if a != [] {
      FirstPart(a);
      FirstPart(b);
      if |a[0]| < |b[0]| {
        ShorterFirstDiffers(limit, a, b);
      } else if |b[0]| < |a[0]| {
        ShorterFirstDiffers(limit, b, a);
      } else {
        SameStart(a[0], Concat(a[1..]), b[0], Concat(b[1..]));
        RestIsCut(limit, a);
        RestIsCut(limit, b);
        OneWayToCut(limit, a[1..], b[1..]);
        assert a == [a[0]] + a[1..] && b == [b[0]] + b[1..];
      }
    }
  }

  lemma SameStart(x: Table, xs: Table, y: Table, ys: Table)
    requires |x| == |y| && x + xs == y + ys
    ensures x == y && xs == ys
  {
    assert (x + xs)[..|x|] == x && (y + ys)[..|x|] == y;
    assert (x + xs)[|x|..] == xs && (y + ys)[|x|..] == ys;
  }

  lemma RestIsCut(limit: nat, a: seq<Table>)
    requires a != [] && CutAt(limit, a)
    ensures CutAt(limit, a[1..])
  {
    forall i | 0 <= i < |a[1..]|
      ensures HadRoom(limit, a[1..][i]) && (i + 1 < |a[1..]| ==> Full(limit, a[1..][i]))
    {
      assert a[1..][i] == a[i + 1];
    }
  }

  // All records are in one block exactly if it was not full before the last of them.
  lemma OneBlockWhen(limit: nat, blocks: seq<Table>)
    requires [] !in blocks && CutAt(limit, blocks)
    ensures |blocks| <= 1 <==> HadRoom(limit, Concat(blocks))
  {
    hide Full, HadRoom;
    if |blocks| == 1 {
      FirstPart(blocks);
      assert Concat(blocks) == blocks[0] + [] == blocks[0];
    } else if |blocks| > 1 {
      FirstPart(blocks);
      assert blocks[0] in blocks && blocks[1] in blocks && blocks[1..][0] == blocks[1];
      assert [] !in blocks[1..] by {
        assert forall x | x in blocks[1..] :: x in blocks;
      }
      NoPartsNoRecords(blocks[1..]);
      FullBlockEnds(limit, blocks[0], Concat(blocks));
      assert Concat(blocks)[..|blocks[0]|] == blocks[0];
    } else {
      NoRoomNeeded(limit);
    }
  }

  lemma NoRoomNeeded(limit: nat)
    ensures HadRoom(limit, [])
  {
  }
}
