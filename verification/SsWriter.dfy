/** Writing a sorted table: data blocks, then the index, the filter, the metadata and the footer. */
module SsWriters {
  import opened Types
  import opened SkipLists
  import opened Coding
  import opened Compaction
  import opened SsTables
  import opened SsFields
  import opened BloomFilters

  const INDEX_BLOCK: nat := 2
  const BLOOM_BLOCK: nat := 3
  const META_BLOCK: nat := 4

  // ---- metadata kept while writing ----

  // The part of a key the range check, the filter and the block search go by.
  function UserOf(key: Bytes): Bytes {
    if |key| < 8 then key else key[..|key| - 8]
  }

  function UserKeys(t: Table): (keys: seq<Bytes>)
    ensures |keys| == |t| && forall i | 0 <= i < |t| :: keys[i] == UserOf(t[i].key)
  {
    seq(|t|, i requires 0 <= i < |t| => UserOf(t[i].key))
  }

  // An empty smallest key counts as not yet set.
  function UpdateMeta(m: Meta, r: Rec): Meta {
    var p, user := ParseInternalKey(r.key), UserOf(r.key);
    m.(smallest := if m.smallest == [] then user else m.smallest, largest := user,
       deletions := if p.Some? && p.value.kind == DELETION then m.deletions + 1 else m.deletions,
       oldest := if p.Some? && (m.oldest == 0 || p.value.seqno < m.oldest) then p.value.seqno else m.oldest,
       rawKeys := m.rawKeys + |r.key|, rawValues := m.rawValues + |r.value|)
  }

  function Summary(empty: Meta, t: Table): Meta {
    if t == [] then empty else UpdateMeta(Summary(empty, t[..|t| - 1]), t[|t| - 1])
  }

  lemma OneMoreRecord(empty: Meta, t: Table, r: Rec)
    ensures Summary(empty, t + [r]) == UpdateMeta(Summary(empty, t), r)
    ensures UserKeys(t + [r]) == UserKeys(t) + [UserOf(r.key)]
    ensures LastKey(t + [r]) == r.key
  {
    assert (t + [r])[..|t|] == t;
  }

  // The largest key is the last one; the smallest is the first that is not empty.
  lemma {:induction false} SummaryRange(empty: Meta, t: Table)
    requires empty.smallest == [] && empty.largest == []
    ensures Summary(empty, t).largest == if t == [] then [] else UserOf(t[|t| - 1].key)
    ensures var smallest := Summary(empty, t).smallest;
            if smallest == [] then forall i | 0 <= i < |t| :: UserOf(t[i].key) == []
            else exists i | 0 <= i < |t| :: UserOf(t[i].key) == smallest && forall j | 0 <= j < i :: UserOf(t[j].key) == []
  {
    hide UserOf;
    if t != [] {
      var n := |t| - 1;
      SummaryRange(empty, t[..n]);
      var before := Summary(empty, t[..n]).smallest;
      if before == [] {
        assert forall j | 0 <= j < n :: t[..n][j] == t[j];
      } else {
        var i :| 0 <= i < n && UserOf(t[..n][i].key) == before && forall j | 0 <= j < i :: UserOf(t[..n][j].key) == [];
        assert UserOf(t[i].key) == before && forall j | 0 <= j < i :: t[..n][j] == t[j];
      }
    }
  }

  // ---- the finished file ----

  function Framed(crc: Checksum, kind: nat, data: Bytes): (b: Bytes)
    ensures |b| == HEADER_SIZE + |data|
  {
    BlockHeader(crc, kind, data) + data
  }

  function EncodeIndex(index: seq<IndexEntry>): Bytes {
    if index == [] then [] else PutSlice(EncodeEntry(index[0])) + EncodeIndex(index[1..])
  }

  // An empty index or filter is left out.
  function IndexPart(crc: Checksum, index: seq<IndexEntry>): Bytes {
    if index == [] then [] else Framed(crc, INDEX_BLOCK, EncodeIndex(index))
  }

  function FilterPart(crc: Checksum, filter: Bytes): Bytes {
    if filter == [] then [] else Framed(crc, BLOOM_BLOCK, filter)
  }

  function MetaPart(crc: Checksum, m: Meta): Bytes {
    Framed(crc, META_BLOCK, EncodeMeta(m))
  }

  // Where the parts stand; a part left out is at 0 with size 0.
  function FooterFor(crc: Checksum, data: Bytes, index: seq<IndexEntry>, filter: Bytes, m: Meta): Footer {
    var ip, fp, mp := IndexPart(crc, index), FilterPart(crc, filter), MetaPart(crc, m);
    Footer(|data| + |ip| + |fp|, Low32(|mp|), if ip == [] then 0 else |data|, Low32(|ip|),
           if fp == [] then 0 else |data| + |ip|, Low32(|fp|))
  }

  function Image(crc: Checksum, data: Bytes, index: seq<IndexEntry>, filter: Bytes, m: Meta): Bytes {
    data + IndexPart(crc, index) + FilterPart(crc, filter) + MetaPart(crc, m)
      + EncodeFooter(FooterFor(crc, data, index, filter, m))
  }

  // The file of a finished table with these records in these blocks.
  ghost predicate IsTable(crc: Checksum, empty: Meta, added: Table, blocks: seq<Table>, filter: Bytes, file: Bytes) {
    && Concat(blocks) == added && [] !in blocks
    && file == Image(crc, Blocks(crc, blocks), IndexOf(crc, blocks), filter, Summary(empty, added))
  }

  // Each key is behind the one before; an empty one is not compared.
  predicate Accepted(cmp: KeyOrder, t: Table) {
    forall i | 0 < i < |t| :: t[i - 1].key == [] || cmp(t[i - 1].key, t[i].key) < 0
  }

  lemma OneMoreAccepted(cmp: KeyOrder, t: Table, r: Rec)
    requires Accepted(cmp, t) && (LastKey(t) == [] || cmp(LastKey(t), r.key) < 0)
    ensures Accepted(cmp, t + [r])
  {
  }

  // Without empty keys, and internal keys are never empty, that is strictly ascending order.
  lemma {:induction false} AcceptedIsSorted(cmp: KeyOrder, t: Table)
    requires TotalOrder(cmp) && Accepted(cmp, t) && forall i | 0 <= i < |t| :: t[i].key != []
    ensures Sorted(cmp, t)
  {
    if |t| > 1 {
      var n := |t| - 1;
      AcceptedIsSorted(cmp, t[..n]);
      forall i | 0 <= i < n
        ensures cmp(t[i].key, t[n].key) < 0
      {
        assert t[..n][i] == t[i] && t[..n][n - 1] == t[n - 1];
        if i < n - 1 {
          StrictStep(cmp, t[i].key, t[n - 1].key, t[n].key);
        }
      }
      assert forall i | 0 <= i < n :: t[..n][i] == t[i];
    }
  }

  // ---- the writer ----

  class SSTableWriter {
    const cmp: KeyOrder
    const crc: Checksum
    const blockSize: nat
    const empty: Meta
    const bloom: BloomFilterBuilder?
    var file: Bytes
    var buffer: Bytes
    var lastKey: Bytes
    var index: seq<IndexEntry>
    var meta: Meta
    var finished: bool
    // Set when their blocks are written.
    var indexOffset: nat
    var indexSize: nat
    var bloomOffset: nat
    var bloomSize: nat
    // For the proofs: everything accepted, and how it is laid out.
    ghost var added: Table
    ghost var layout: Layout

    constructor (cmp: KeyOrder, crc: Checksum, blockSize: nat, empty: Meta, bloom: BloomFilterBuilder?)
      requires bloom != null ==> bloom.keys == []
      ensures Valid() && added == [] && !finished
      ensures this.cmp == cmp && this.crc == crc && this.blockSize == blockSize && this.empty == empty && this.bloom == bloom
    {
      this.cmp, this.crc, this.blockSize, this.empty, this.bloom := cmp, crc, blockSize, empty, bloom;
      file, buffer, lastKey, index, meta, finished := [], [], [], [], empty, false;
      indexOffset, indexSize, bloomOffset, bloomSize := 0, 0, 0, 0;
      added, layout := [], Layout([], [], [], [], []);
    }

    // Until it is finished; between calls the blocks are also full.
    ghost predicate Valid()
      reads this, bloom
    {
      Laid() && (!finished ==> Filling(blockSize, layout))
    }

    ghost predicate Laid()
      reads this, bloom
    {
      !finished ==>
        && LaidOut(crc, added, layout) && lastKey == LastKey(added)
        && file == layout.file && buffer == layout.buffer && index == layout.index
        && indexOffset == 0 && indexSize == 0 && bloomOffset == 0 && bloomSize == 0
        && Accepted(cmp, added) && meta == Summary(empty, added) && (bloom != null ==> bloom.keys == UserKeys(added))
    }

    // A record goes into the block being filled if that is smaller than the block size, else the
    // block is closed and the record opens the next one.
    method Add(key: Bytes, value: Bytes) returns (ok: bool)
      requires Valid()
      modifies this, bloom
      ensures Valid() && finished == old(finished)
      ensures ok <==> !finished && (LastKey(old(added)) == [] || cmp(LastKey(old(added)), key) < 0)
      ensures added == if ok then old(added) + [Rec(key, value)] else old(added)
      ensures ok ==>
        if old(layout.pending) != [] && |EncodeBlock(old(layout.pending))| >= blockSize
        then layout.blocks == old(layout.blocks) + [old(layout.pending)] && layout.pending == [Rec(key, value)]
        else layout.blocks == old(layout.blocks) && layout.pending == old(layout.pending) + [Rec(key, value)]
    {
      hide LaidOut, Filling, EncodeBlock, Summary, UserKeys, Accepted;
      if finished {
        return false;
      }
      if lastKey != [] && cmp(lastKey, key) >= 0 {
        return false;
      }
      ghost var l := layout;
      BufferIs(crc, added, l);
      if |buffer| >= blockSize {
        WriteDataBlock();
        FullBlockCloses(crc, added, blockSize, l, layout);
      }
      Append(key, value);
      ok := true;
    }

    // Buffers the record; the first of a block gets an index entry.
    method Append(key: Bytes, value: Bytes)
      requires Valid() && !finished && (LastKey(added) == [] || cmp(LastKey(added), key) < 0)
      requires buffer == [] || |buffer| < blockSize
      modifies this, bloom
      ensures Valid() && !finished && added == old(added) + [Rec(key, value)]
      ensures layout.blocks == old(layout.blocks) && layout.pending == old(layout.pending) + [Rec(key, value)]
    {
      hide PutSlice, LaidOut, Filling, UpdateMeta, Summary, UserOf, UserKeys, LastKey, Accepted;
      ghost var l := AfterAppend(crc, added, layout, Rec(key, value));
      FillingOn(crc, added, blockSize, layout, l, Rec(key, value));
      OneMoreRecord(empty, added, Rec(key, value));
      OneMoreAccepted(cmp, added, Rec(key, value));
      if buffer == [] {
        index := index + [IndexEntry(key, |file|, 0)];
      }
      buffer := buffer + (PutSlice(key) + PutSlice(value));
      if bloom != null {
        bloom.AddKey(UserOf(key));
      }
      meta := UpdateMeta(meta, Rec(key, value));
      lastKey := key;
      added, layout := added + [Rec(key, value)], l;
    }

    method WriteDataBlock()
      requires Laid() && !finished
      modifies this`file, this`index, this`buffer, this`layout
      ensures Laid() && buffer == [] && layout.pending == []
      ensures layout.blocks == if old(layout.pending) == [] then old(layout.blocks) else old(layout.blocks) + [old(layout.pending)]
    {
      hide BlockHeader, LaidOut;
      BufferIs(crc, added, layout);
      if buffer == [] {
        return;
      }
      ghost var l := AfterBlock(crc, added, layout);
      file := file + (BlockHeader(crc, DATA_BLOCK, buffer) + buffer);
      index := index[|index| - 1 := index[|index| - 1].(size := Low32(HEADER_SIZE + |buffer|))];
      buffer := [];
      layout := l;
    }

    method WriteIndexBlock()
      modifies `file, `indexOffset, `indexSize
      requires indexOffset == 0 && indexSize == 0
      ensures file == old(file) + IndexPart(crc, index) && indexSize == Low32(|IndexPart(crc, index)|)
      ensures indexOffset == if index == [] then 0 else |old(file)|
    {
      hide BlockHeader, EncodeIndex;
      if index == [] {
        return;
      }
      var block := BlockHeader(crc, INDEX_BLOCK, EncodeIndex(index)) + EncodeIndex(index);
      indexOffset, indexSize := |file|, Low32(|block|);
      file := file + block;
    }

    method WriteBloomFilterBlock() returns (filter: Bytes)
      modifies `file, `bloomOffset, `bloomSize
      requires bloomOffset == 0 && bloomSize == 0
      ensures if bloom == null then filter == [] else FilterOf(bloom.hash, bloom.count, bloom.sizeFor(|bloom.keys|), bloom.keys, filter)
      ensures file == old(file) + FilterPart(crc, filter) && bloomSize == Low32(|FilterPart(crc, filter)|)
      ensures bloomOffset == if filter == [] then 0 else |old(file)|
    {
      hide BlockHeader, FilterOf;
      filter := [];
      if bloom == null {
        return;
      }
      filter := bloom.Finish();
      if filter == [] {
        return;
      }
      var block := BlockHeader(crc, BLOOM_BLOCK, filter) + filter;
      bloomOffset, bloomSize := |file|, Low32(|block|);
      file := file + block;
    }

    // The filter is of the user keys added; without a builder there is none.
    method Finish() returns (ok: bool, ghost blocks: seq<Table>, ghost filter: Bytes)
      requires Valid()
      modifies `file, `index, `buffer, `layout, `finished, `indexOffset, `indexSize, `bloomOffset, `bloomSize
      ensures ok == !old(finished) && finished
      ensures ok ==> IsTable(crc, empty, added, blocks, filter, file) && Accepted(cmp, added) && CutAt(blockSize, blocks)
      ensures ok ==> if bloom == null then filter == []
                     else FilterOf(bloom.hash, bloom.count, bloom.sizeFor(|added|), UserKeys(added), filter)
    {
      hide IndexPart, FilterPart, MetaPart, IsTable, LaidOut, Filling, CutAt, Summary, FilterOf, UserKeys;
      if finished {
        return false, [], [];
      }
      ghost var l := layout;
      WriteDataBlock();
      blocks := layout.blocks;
      FinishedIsCut(blockSize, l, blocks);
      ghost var data := file;
      WriteIndexBlock();
      filter := WriteBloomFilterBlock();
      var metaOffset, metaSize := WriteMetaBlock();
      var f := Footer(metaOffset, metaSize, indexOffset, indexSize, bloomOffset, bloomSize);
      Assembled(crc, empty, added, layout, filter, f);
      file := file + EncodeFooter(f);
      finished, ok := true, true;
    }

    method WriteMetaBlock() returns (offset: nat, size: nat)
      modifies `file
      ensures file == old(file) + MetaPart(crc, meta) && offset == |old(file)| && size == Low32(|MetaPart(crc, meta)|)
    {
      hide BlockHeader, EncodeMeta;
      var block := BlockHeader(crc, META_BLOCK, EncodeMeta(meta)) + EncodeMeta(meta);
      offset, size := |file|, Low32(|block|);
      file := file + block;
    }
  }

  lemma Assembled(crc: Checksum, empty: Meta, added: Table, l: Layout, filter: Bytes, f: Footer)
    requires LaidOut(crc, added, l) && l.buffer == []
    requires f.metaOffset == |l.file + IndexPart(crc, l.index) + FilterPart(crc, filter)|
    requires f.metaSize == Low32(|MetaPart(crc, Summary(empty, added))|)
    requires f.indexOffset == (if l.index == [] then 0 else |l.file|) && f.indexSize == Low32(|IndexPart(crc, l.index)|)
    requires f.bloomOffset == (if filter == [] then 0 else |l.file + IndexPart(crc, l.index)|)
    requires f.bloomSize == Low32(|FilterPart(crc, filter)|)
    ensures IsTable(crc, empty, added, l.blocks, filter,
                    l.file + IndexPart(crc, l.index) + FilterPart(crc, filter) + MetaPart(crc, Summary(empty, added)) + EncodeFooter(f))
  {
    hide BlockHeader, EncodeIndex, EncodeMeta, EncodeFooter, EncodeBlock, Summary;
    assert Concat(l.blocks) + [] == Concat(l.blocks);
    assert IndexOf(crc, l.blocks) + [] == IndexOf(crc, l.blocks);
    assert IndexPart(crc, l.index) == [] <==> l.index == [];
    assert FilterPart(crc, filter) == [] <==> filter == [];
    assert f == FooterFor(crc, l.file, l.index, filter, Summary(empty, added));
  }
}
