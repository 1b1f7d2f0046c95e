/** A sorted table from writer to reader. */
module SsRoundTrip {
  import opened Types
  import opened Coding
  import opened Compaction
  import opened SsTables
  import opened SsFields
  import opened SsIterators
  import opened BloomFilters
  import opened SsWriters
  import opened SsOpening
  import opened SsReaders

  lemma StartsClimb(blocks: seq<Table>, i: nat, j: nat)
    requires i < j < |blocks| && [] !in blocks
    ensures |Concat(blocks[..i])| < |Concat(blocks[..j])|
  {
    hide Concat;
    assert blocks[i] in blocks;
    OneMoreBlock(blocks, i);
    StartsAscend(blocks, i + 1, j);
  }

  // Blocks of a sorted table have ascending first keys.
  lemma IndexAscends(cmp: KeyOrder, crc: Checksum, blocks: seq<Table>)
    requires [] !in blocks && Sorted(cmp, Concat(blocks))
    ensures Ascending(cmp, SsTables.IndexOf(crc, blocks))
  {
    hide Concat, Blocks, SizeOf;
    var index := SsTables.IndexOf(crc, blocks);
    forall i | 0 < i < |index|
      ensures cmp(index[i - 1].key, index[i].key) < 0
    {
      FirstKeys(blocks, i - 1);
      FirstKeys(blocks, i);
      StartsClimb(blocks, i - 1, i);
    }
  }

  lemma NoBlocksNoRecords(crc: Checksum, blocks: seq<Table>)
    requires [] !in blocks
    ensures SsTables.IndexOf(crc, blocks) == [] <==> Concat(blocks) == []
  {
    if blocks != [] {
      FirstKeys(blocks, 0);
    }
  }

  // What a finished table needs to be read back: raw and user keys in order, numbers in range.
  ghost predicate Readable(cmp: KeyOrder, crc: Checksum, empty: Meta, added: Table, blocks: seq<Table>, filter: Bytes, file: Bytes) {
    && TotalOrder(cmp) && Sorted(cmp, added) && UsersOrdered(cmp, added)
    && empty.smallest == [] && empty.largest == []
    && IsTable(crc, empty, added, blocks, filter, file) && AllFit(blocks)
    && Writable(crc, Blocks(crc, blocks), SsTables.IndexOf(crc, blocks), filter, Summary(empty, added))
  }

  predicate Opens(added: Table) {
    added != [] && (UserOf(added[0].key) != []
                    || (forall i | 0 <= i < |added| :: UserOf(added[i].key) == [])
                    || UserOf(added[|added| - 1].key) == [])
  }

  // A finished table opens exactly if it has a record and its first user key is not empty, or is
  // as empty as all the others; then the reader has the blocks, index, range and filter written.
  lemma TableOpens(cmp: KeyOrder, crc: Checksum, name: Bytes, empty: Meta, added: Table, blocks: seq<Table>, filter: Bytes, file: Bytes)
    requires Readable(cmp, crc, empty, added, blocks, filter, file) && (filter == [] || FilterLoads(filter))
    ensures OpenFile(cmp, crc, name, file).Some? <==> Opens(added)
    ensures OpenFile(cmp, crc, name, file).Some? ==>
              var t := OpenFile(cmp, crc, name, file).value;
              t.filter == filter && Behind(cmp, crc, blocks, file, t.index, t.meta)
  {
    hide Concat, UserOf, Blocks, SizeOf, Summary, Writable, FilterLoads, OpenFile, RangeAgrees, Image, AllFit, UsersOrdered;
    var data, index, m := Blocks(crc, blocks), SsTables.IndexOf(crc, blocks), Summary(empty, added);
    IndexAscends(cmp, crc, blocks);
    ImageOpens(cmp, crc, name, data, index, filter, m);
    NoBlocksNoRecords(crc, blocks);
    if added != [] {
      OpensUnlessFirstKeyIsEmpty(cmp, crc, empty, added, blocks);
    }
    DataFirst(crc, data, index, filter, m);
    var m' := m.(filename := name, fileSize := |file|);
    SameRange(cmp, index, m, m');
    assert SummaryOf(empty, added, m');
  }

  lemma DataFirst(crc: Checksum, data: Bytes, index: seq<IndexEntry>, filter: Bytes, m: Meta)
    ensures data <= Image(crc, data, index, filter, m)
  {
    hide IndexPart, FilterPart, MetaPart, EncodeFooter, FooterFor;
  }

  lemma SameRange(cmp: KeyOrder, index: seq<IndexEntry>, m: Meta, m': Meta)
    requires m.smallest == m'.smallest && m.largest == m'.largest
    ensures RangeAgrees(cmp, index, m) == RangeAgrees(cmp, index, m')
  {
  }

  // The key's versions are all in the last block that starts at or before it.
  predicate InOneBlock(cmp: KeyOrder, blocks: seq<Table>, key: Bytes) {
    var i := BlockFor(cmp, blocks, key);
    i > 0 ==> forall j | 0 <= j < |Concat(blocks[..i])| :: UserOf(Concat(blocks[..i])[j].key) != key
  }

  // A filter with bits, or none, leaves the lookup to the block: what it denies is not there.
  lemma LookupNeverTraps(bloom: BloomFilterBuilder?, hash: Hash, added: Table, filter: Bytes, bitSize: nat, count: nat)
    requires bloom == null ==> filter == []
    requires bloom != null ==>
               && bloom.hash == hash && bloom.count < WORD32_SPAN && 0 < bloom.sizeFor(|added|) < WORD_SPAN
               && FilterOf(hash, bloom.count, bloom.sizeFor(|added|), UserKeys(added), filter)
    requires filter != [] ==> bitSize == DecodeFixed(filter[..if |filter| < 8 then |filter| else 8])
    requires filter != [] && |filter| >= 12 ==> count == DecodeFixed(filter[8..12])
    ensures filter != [] ==> bitSize > 0 && FilterOf(hash, count, bitSize, UserKeys(added), filter)
  {
    hide DecodeFixed;
    if filter != [] {
      FilterNeedsKeys(hash, bloom.count, bloom.sizeFor(|added|), UserKeys(added), filter);
      WrittenFilterAnswers(hash, bloom.count, bloom.sizeFor(|added|), UserKeys(added), filter, []);
    }
  }

  lemma FilterNeedsKeys(hash: Hash, count: nat, bitSize: nat, keys: seq<Bytes>, filter: Bytes)
    requires FilterOf(hash, count, bitSize, keys, filter) && filter != []
    ensures keys != []
  {
  }

  lemma FilterLoadsIfBuilt(hash: Hash, count: nat, bitSize: nat, keys: seq<Bytes>, filter: Bytes)
    requires FilterOf(hash, count, bitSize, keys, filter) && bitSize < WORD_SPAN && count < WORD32_SPAN
    ensures filter == [] || FilterLoads(filter)
  {
    hide DecodeFixed;
    if filter != [] {
      FilterNeedsKeys(hash, count, bitSize, keys, filter);
      WrittenFilterAnswers(hash, count, bitSize, keys, filter, []);
    }
  }

  // A table whose encoding without its last record is below the block size is one block, and then
  // every key is in one block.
  lemma SmallTableIsOneBlock(cmp: KeyOrder, limit: nat, added: Table, blocks: seq<Table>, key: Bytes)
    requires Concat(blocks) == added && [] !in blocks && CutAt(limit, blocks) && HadRoom(limit, added)
    ensures |blocks| <= 1 && InOneBlock(cmp, blocks, key)
  {
    OneBlockWhen(limit, blocks);
  }

  // Finish, open, scan and look up. A readable table opens exactly as TableOpens says; then the
  // scan returns the records added, in order, and a lookup answers as a scan of them does, for
  // every key whose versions are in one block; in a table below the block size, for every key.
  method WriteOpenRead(writer: SSTableWriter, reader: SSTableReader, key: Bytes, snapshot: nat)
    returns (ok: bool, scan: Table, answer: GetResult, ghost blocks: seq<Table>, ghost filter: Bytes)
    requires writer.Valid() && !writer.finished && !reader.isOpen
    requires reader.cmp == writer.cmp && reader.crc == writer.crc
    requires writer.bloom != null ==>
               && writer.bloom.hash == reader.hash && writer.bloom.count < WORD32_SPAN
               && 0 < writer.bloom.sizeFor(|writer.added|) < WORD_SPAN
    modifies writer, reader
    ensures writer.added == old(writer.added)
    ensures IsTable(writer.crc, writer.empty, writer.added, blocks, filter, writer.file)
    ensures CutAt(writer.blockSize, blocks)
    ensures Readable(writer.cmp, writer.crc, writer.empty, writer.added, blocks, filter, writer.file) ==>
              && (ok <==> Opens(writer.added))
              && (ok ==> scan == writer.added)
              && (ok && (InOneBlock(writer.cmp, blocks, key) || HadRoom(writer.blockSize, writer.added)) ==>
                    answer == ResultOf(Best(writer.cmp, writer.added, key, snapshot)))
  {
    hide Readable, IsTable, OpenFile, Looked, Best, FilterOf, LaidOut, Filling, CutAt, HadRoom, Behind, InOneBlock, Accepted, Summary, Opens, UserKeys, DecodeFixed;
    var finished;
    finished, blocks, filter := writer.Finish();
    ghost var added, file := writer.added, writer.file;
    scan, answer := [], NotOpened;
    ok := reader.Open(writer.file);
    ghost var readable := Readable(writer.cmp, writer.crc, writer.empty, added, blocks, filter, file);
    if writer.bloom != null {
      FilterLoadsIfBuilt(reader.hash, writer.bloom.count, writer.bloom.sizeFor(|added|), UserKeys(added), filter);
    }
    if readable {
      TableOpens(writer.cmp, writer.crc, reader.name, writer.empty, added, blocks, filter, file);
    }
    if !ok {
      return;
    }
    if readable {
      TableParts(writer.cmp, writer.crc, writer.empty, added, blocks, filter, file, reader.index, reader.meta);
      LookupNeverTraps(writer.bloom, reader.hash, added, filter,
                       if reader.bloom == null then 0 else reader.bloom.bitSize, if reader.bloom == null then 0 else reader.bloom.count);
    }
    answer := reader.Get(key, snapshot, blocks, if readable then filter else OpenFile(reader.cmp, reader.crc, reader.name, file).value.filter);
    var iter := new SSTableIterator(reader.file, reader.index, writer.crc, blocks);
    scan := ReadAll(iter);
    if HadRoom(writer.blockSize, added) {
      BlocksOfTable(writer.crc, writer.empty, added, blocks, filter, file);
      SmallTableIsOneBlock(writer.cmp, writer.blockSize, added, blocks, key);
    }
    if readable && InOneBlock(writer.cmp, blocks, key) {
      OneBlockDecides(writer.cmp, writer.crc, blocks, file, reader.index, reader.meta, key, snapshot);
    }
  }

  lemma BlocksOfTable(crc: Checksum, empty: Meta, added: Table, blocks: seq<Table>, filter: Bytes, file: Bytes)
    requires IsTable(crc, empty, added, blocks, filter, file)
    ensures Concat(blocks) == added && [] !in blocks
  {
  }

  lemma TableParts(cmp: KeyOrder, crc: Checksum, empty: Meta, added: Table, blocks: seq<Table>, filter: Bytes, file: Bytes,
                   index: seq<IndexEntry>, m: Meta)
    requires Readable(cmp, crc, empty, added, blocks, filter, file) && Behind(cmp, crc, blocks, file, index, m)
    ensures HoldsBlocks(crc, blocks, file) && index == SsTables.IndexOf(crc, blocks) && AllFit(blocks)
    ensures Concat(blocks) == added
  {
  }

  lemma OneBlockDecides(cmp: KeyOrder, crc: Checksum, blocks: seq<Table>, file: Bytes, index: seq<IndexEntry>, m: Meta, key: Bytes,
                        snapshot: nat)
    requires Behind(cmp, crc, blocks, file, index, m) && InOneBlock(cmp, blocks, key)
    ensures Looked(cmp, blocks, key, snapshot) == Best(cmp, Concat(blocks), key, snapshot)
  {
    hide Looked, Best;
    LookupIsScan(cmp, blocks, key, snapshot);
  }
}
