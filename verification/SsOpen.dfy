/** Opening a sorted table: footer, metadata, index and filter, as they were written. */
module SsOpening {
  import opened Types
  import opened Coding
  import opened Compaction
  import opened SsTables
  import opened SsFields
  import opened BloomFilters
  import opened SsWriters

  // ---- framed blocks ----

  // Type and checksum must be right. The type is cast to a byte.
  function ReadBlock(crc: Checksum, file: Bytes, offset: nat, size: nat, kind: nat): Option<Bytes> {
    if offset + size > |file| || size < HEADER_SIZE then None
    else
      var header, content := file[offset..offset + HEADER_SIZE], file[offset + HEADER_SIZE..offset + size];
      if DecodeFixed(header[..4]) % 256 != kind || DecodeFixed(header[8..12]) != Low32(crc(content)) then None
      else Some(content)
  }

  lemma HeaderFields(crc: Checksum, kind: nat, data: Bytes)
    requires kind < 256
    ensures DecodeFixed(BlockHeader(crc, kind, data)[..4]) == kind
    ensures DecodeFixed(BlockHeader(crc, kind, data)[8..12]) == Low32(crc(data))
  {
    hide Word, DecodeFixed;
    var a, b, c, d := Word(kind), Word(|data|), Word(crc(data)), Word(0);
    assert (a + b + c + d)[..4] == a && (a + b + c + d)[8..12] == c;
    WordDecodes(kind);
    WordDecodes(crc(data));
  }

  lemma WordDecodes(v: nat)
    ensures DecodeFixed(Word(v)) == Low32(v)
  {
    SpanOf4();
    FixedRoundTrip(Low32(v), WORD_SIZE);
  }

  lemma FramedReadsBack(crc: Checksum, file: Bytes, before: Bytes, kind: nat, data: Bytes, after: Bytes)
    requires kind < 256 && file == before + Framed(crc, kind, data) + after
    ensures ReadBlock(crc, file, |before|, HEADER_SIZE + |data|, kind) == Some(data)
  {
    hide BlockHeader, DecodeFixed;
    var header := BlockHeader(crc, kind, data);
    assert file[|before|..|before| + HEADER_SIZE] == header;
    assert file[|before| + HEADER_SIZE..|before| + HEADER_SIZE + |data|] == data;
    HeaderFields(crc, kind, data);
  }

  // ---- the index ----

  // Reading stops at the first piece that does not parse; an entry beyond the file or out of
  // order is an error.
  function ScanIndex(cmp: KeyOrder, b: Bytes, fileSize: nat, got: seq<IndexEntry>): Option<seq<IndexEntry>> {
    match GetSlice(b)
    case None => Some(got)
    case Some((piece, c)) =>
      match DecodeEntry(piece)
      case None => Some(got)
      case Some(e) =>
        if e.offset + e.size > fileSize || (got != [] && cmp(got[|got| - 1].key, e.key) >= 0) then None
        else ScanIndex(cmp, b[c..], fileSize, got + [e])
  }

  predicate EntryFits(e: IndexEntry, fileSize: nat) {
    EntryInRange(e) && |EncodeEntry(e)| < WORD32_SPAN && e.offset + e.size <= fileSize
  }

  predicate Ascending(cmp: KeyOrder, index: seq<IndexEntry>) {
    forall i | 0 < i < |index| :: cmp(index[i - 1].key, index[i].key) < 0
  }

  lemma {:induction false} IndexReadsBack(cmp: KeyOrder, index: seq<IndexEntry>, fileSize: nat, got: seq<IndexEntry>)
    requires forall i | 0 <= i < |index| :: EntryFits(index[i], fileSize)
    requires Ascending(cmp, got + index)
    ensures ScanIndex(cmp, EncodeIndex(index), fileSize, got) == Some(got + index)
  {
    hide GetSlice, PutSlice, EncodeEntry, DecodeEntry, GetVarint32;
    if index == [] {
      NoSlice();
      assert got + index == got;
    } else {
      var e, rest := index[0], EncodeIndex(index[1..]);
      assert got != [] ==> (got + index)[|got| - 1] == got[|got| - 1] && (got + index)[|got|] == e;
      assert (got + [e]) + index[1..] == got + index;
      IndexReadsBack(cmp, index[1..], fileSize, got + [e]);
      SliceRoundTrip(EncodeEntry(e), rest);
      EntryFieldsRoundTrip(e);
      assert (PutSlice(EncodeEntry(e)) + rest)[|PutSlice(EncodeEntry(e))|..] == rest;
    }
  }

  lemma NoSlice()
    ensures GetSlice([]) == None
  {
  }

  // The first block begins with the smallest key and the last one not after the largest.
  predicate RangeAgrees(cmp: KeyOrder, index: seq<IndexEntry>, m: Meta) {
    m.smallest == [] || m.largest == [] || index == []
    || (cmp(UserOf(index[0].key), m.smallest) == 0 && cmp(UserOf(index[|index| - 1].key), m.largest) <= 0)
  }

  // ---- opening ----

  datatype OpenTable = OpenTable(meta: Meta, index: seq<IndexEntry>, filter: Bytes)

  function ReadMeta(crc: Checksum, name: Bytes, file: Bytes): Option<(Meta, Footer)> {
    if |file| < FOOTER_SIZE then None
    else match DecodeFooter(file[|file| - FOOTER_SIZE..])
         case Corrupt => None
         case Unsupported => None
         case Opened(f) =>
           match ReadBlock(crc, file, f.metaOffset, f.metaSize, META_BLOCK)
           case None => None
           case Some(content) =>
             match DecodeMeta(content)
             case None => None
             case Some(m) => Some((m.(filename := name, fileSize := |file|), f))
  }

  function ReadIndex(cmp: KeyOrder, crc: Checksum, file: Bytes, f: Footer, m: Meta): Option<seq<IndexEntry>> {
    if f.indexSize == 0 then None
    else match ReadBlock(crc, file, f.indexOffset, f.indexSize, INDEX_BLOCK)
         case None => None
         case Some(content) =>
           match ScanIndex(cmp, content, |file|, [])
           case None => None
           case Some(index) => if index == [] || !RangeAgrees(cmp, index, m) then None else Some(index)
  }

  predicate FilterLoads(filter: Bytes) {
    |filter| >= FILTER_HEADER && |filter| == FILTER_HEADER + ByteSize(DecodeFixed(filter[..8]))
  }

  // No filter is allowed; a bad one is not.
  function ReadFilter(crc: Checksum, file: Bytes, f: Footer): Option<Bytes> {
    if f.bloomSize == 0 then Some([])
    else match ReadBlock(crc, file, f.bloomOffset, f.bloomSize, BLOOM_BLOCK)
         case None => None
         case Some(content) => if FilterLoads(content) then Some(content) else None
  }

  function OpenFile(cmp: KeyOrder, crc: Checksum, name: Bytes, file: Bytes): Option<OpenTable> {
    match ReadMeta(crc, name, file)
    case None => None
    case Some((m, f)) =>
      match ReadIndex(cmp, crc, file, f, m)
      case None => None
      case Some(index) =>
        match ReadFilter(crc, file, f)
        case None => None
        case Some(filter) => Some(OpenTable(m, index, filter))
  }

  // ---- a written file opens ----

  // Every number fits the field it is written to.
  ghost predicate Writable(crc: Checksum, data: Bytes, index: seq<IndexEntry>, filter: Bytes, m: Meta) {
    && |Image(crc, data, index, filter, m)| < 0x8000_0000_0000_0000
    && |IndexPart(crc, index)| < WORD32_SPAN && |FilterPart(crc, filter)| < WORD32_SPAN && |MetaPart(crc, m)| < WORD32_SPAN
    && MetaInRange(m) && forall i | 0 <= i < |index| :: EntryFits(index[i], |Image(crc, data, index, filter, m)|)
  }

  lemma FooterReadsBack(crc: Checksum, data: Bytes, index: seq<IndexEntry>, filter: Bytes, m: Meta)
    requires Writable(crc, data, index, filter, m)
    ensures var file := Image(crc, data, index, filter, m);
            |file| >= FOOTER_SIZE && DecodeFooter(file[|file| - FOOTER_SIZE..]) == Opened(FooterFor(crc, data, index, filter, m))
  {
    hide IndexPart, FilterPart, MetaPart, EncodeFooter, DecodeFooter, MetaInRange;
    var f := FooterFor(crc, data, index, filter, m);
    var parts := data + IndexPart(crc, index) + FilterPart(crc, filter) + MetaPart(crc, m);
    assert (parts + EncodeFooter(f))[|parts|..] == EncodeFooter(f);
    assert FooterInRange(f);
    SmallOffsetsFit(f);
  }

  lemma MetaReadsBack(crc: Checksum, name: Bytes, data: Bytes, index: seq<IndexEntry>, filter: Bytes, m: Meta)
    requires Writable(crc, data, index, filter, m)
    ensures var file := Image(crc, data, index, filter, m);
            ReadMeta(crc, name, file) == Some((m.(filename := name, fileSize := |file|), FooterFor(crc, data, index, filter, m)))
  {
    hide IndexPart, FilterPart, Framed, EncodeFooter, DecodeFooter, MetaInRange, EncodeMeta, DecodeMeta, ReadBlock;
    FooterReadsBack(crc, data, index, filter, m);
    var f, file := FooterFor(crc, data, index, filter, m), Image(crc, data, index, filter, m);
    FramedReadsBack(crc, file, data + IndexPart(crc, index) + FilterPart(crc, filter), META_BLOCK, EncodeMeta(m), EncodeFooter(f));
    MetaRoundTrip(m);
  }

  lemma IndexBlockReadsBack(cmp: KeyOrder, crc: Checksum, data: Bytes, index: seq<IndexEntry>, filter: Bytes, m: Meta, m': Meta)
    requires Writable(crc, data, index, filter, m) && Ascending(cmp, index)
    ensures ReadIndex(cmp, crc, Image(crc, data, index, filter, m), FooterFor(crc, data, index, filter, m), m')
         == if index == [] || !RangeAgrees(cmp, index, m') then None else Some(index)
  {
    hide MetaPart;
    hide FilterPart, Framed, EncodeFooter, MetaInRange, ReadBlock, RangeAgrees, EncodeIndex, ScanIndex;
    var f, file := FooterFor(crc, data, index, filter, m), Image(crc, data, index, filter, m);
    if index != [] {
      var after := FilterPart(crc, filter) + MetaPart(crc, m) + EncodeFooter(f);
      assert file == data + Framed(crc, INDEX_BLOCK, EncodeIndex(index)) + after;
      FramedReadsBack(crc, file, data, INDEX_BLOCK, EncodeIndex(index), after);
      assert [] + index == index;
      IndexReadsBack(cmp, index, |file|, []);
    }
  }

  lemma FilterReadsBack(crc: Checksum, data: Bytes, index: seq<IndexEntry>, filter: Bytes, m: Meta)
    requires Writable(crc, data, index, filter, m) && (filter == [] || FilterLoads(filter))
    ensures ReadFilter(crc, Image(crc, data, index, filter, m), FooterFor(crc, data, index, filter, m)) == Some(filter)
  {
    hide IndexPart, Framed, EncodeFooter, MetaInRange, ReadBlock, FilterLoads;
    var f, file := FooterFor(crc, data, index, filter, m), Image(crc, data, index, filter, m);
    if filter != [] {
      var before, after := data + IndexPart(crc, index), MetaPart(crc, m) + EncodeFooter(f);
      assert file == before + Framed(crc, BLOOM_BLOCK, filter) + after;
      FramedReadsBack(crc, file, before, BLOOM_BLOCK, filter, after);
    }
  }

  // A written file opens, with the index and filter written, exactly if it has an entry and its
  // first block begins with the smallest key of its metadata.
  lemma ImageOpens(cmp: KeyOrder, crc: Checksum, name: Bytes, data: Bytes, index: seq<IndexEntry>, filter: Bytes, m: Meta)
    requires Writable(crc, data, index, filter, m) && Ascending(cmp, index) && (filter == [] || FilterLoads(filter))
    ensures var file := Image(crc, data, index, filter, m);
            OpenFile(cmp, crc, name, file) ==
              if index == [] || !RangeAgrees(cmp, index, m) then None
              else Some(OpenTable(m.(filename := name, fileSize := |file|), index, filter))
  {
    hide Image, FooterFor, ReadMeta, ReadIndex, ReadFilter, Writable;
    var file := Image(crc, data, index, filter, m);
    var m' := m.(filename := name, fileSize := |file|);
    MetaReadsBack(crc, name, data, index, filter, m);
    IndexBlockReadsBack(cmp, crc, data, index, filter, m, m');
    FilterReadsBack(crc, data, index, filter, m);
  }

  // ---- when the range agrees ----

  predicate UsersOrdered(cmp: KeyOrder, t: Table) {
    forall i, j | 0 <= i <= j < |t| :: cmp(UserOf(t[i].key), UserOf(t[j].key)) <= 0
  }

  // Records in user-key order: the file opens exactly if it has records and the first user key is
  // not empty, or all are. An empty first key is not kept as the smallest, and then does not match.
  lemma OpensUnlessFirstKeyIsEmpty(cmp: KeyOrder, crc: Checksum, empty: Meta, added: Table, blocks: seq<Table>)
    requires TotalOrder(cmp) && UsersOrdered(cmp, added) && empty.smallest == [] && empty.largest == []
    requires Concat(blocks) == added && [] !in blocks && added != []
    ensures RangeAgrees(cmp, SsTables.IndexOf(crc, blocks), Summary(empty, added)) <==>
              || UserOf(added[0].key) != []
              || (forall i | 0 <= i < |added| :: UserOf(added[i].key) == [])
              || UserOf(added[|added| - 1].key) == []
  {
    hide Summary, UserOf, SizeOf, Blocks;
    var index, m := SsTables.IndexOf(crc, blocks), Summary(empty, added);
    SummaryRange(empty, added);
    FirstKeys(blocks, 0);
    FirstKeys(blocks, |blocks| - 1);
    assert cmp(m.largest, m.largest) == 0;
    assert cmp(UserOf(added[0].key), UserOf(added[0].key)) == 0;
  }

  // The first key of each block is the key of a record.
  lemma FirstKeys(blocks: seq<Table>, i: nat)
    requires i < |blocks| && [] !in blocks
    ensures blocks[i] != [] && |Concat(blocks[..i])| < |Concat(blocks)| && Concat(blocks)[|Concat(blocks[..i])|] == blocks[i][0]
  {
    hide Concat;
    assert blocks[i] in blocks;
    PartIsThere(blocks, i);
    assert Concat(blocks)[|Concat(blocks[..i])|..|Concat(blocks[..i + 1])|][0] == blocks[i][0];
  }
}
