/** Reading a sorted table back: data blocks, entries, and the forward iterator. */
module SsIterators {
  import opened Types
  import opened Coding
  import opened Compaction
  import opened SsTables

  // ---- reading a block ----

  // None is an error; the header is skipped unread.
  function ReadDataBlock(file: Bytes, offset: nat, size: nat): Option<Bytes> {
    if size == 0 then Some([])
    else if size <= HEADER_SIZE || offset + size > |file| then None
    else Some(file[offset + HEADER_SIZE..offset + size])
  }

  // The data blocks stand at the start of the file, whatever follows them.
  ghost predicate HoldsBlocks(crc: Checksum, blocks: seq<Table>, file: Bytes) {
    Blocks(crc, blocks) <= file && [] !in blocks
  }

  lemma InFile(crc: Checksum, blocks: seq<Table>, file: Bytes, i: nat)
    requires i < |blocks| && HoldsBlocks(crc, blocks, file)
    ensures var start := StartOf(crc, blocks, i);
            start + SizeOf(blocks[i]) <= |file| && file[start..start + SizeOf(blocks[i])] == Block(crc, blocks[i])
  {
    BlockIsThere(crc, blocks, i);
    var data, rest := Blocks(crc, blocks), file[|Blocks(crc, blocks)|..];
    assert file == data + rest;
    SliceOfPrefix(data, rest, StartOf(crc, blocks, i), StartOf(crc, blocks, i + 1));
  }

  lemma DropHeader(file: Bytes, lo: nat, hi: nat, header: Bytes, data: Bytes)
    requires lo <= hi <= |file| && file[lo..hi] == header + data
    ensures file[lo + |header|..hi] == data
  {
    assert file[lo + |header|..hi] == file[lo..hi][|header|..];
    assert (header + data)[|header|..] == data;
  }

  // A block reads back by its index entry exactly if its size fits the entry's 32 bits.
  lemma BlockReadsBack(crc: Checksum, blocks: seq<Table>, file: Bytes, i: nat)
    requires i < |blocks| && HoldsBlocks(crc, blocks, file)
    ensures var e := IndexOf(crc, blocks)[i];
            ReadDataBlock(file, e.offset, e.size) == Some(EncodeBlock(blocks[i])) <==> SizeOf(blocks[i]) < WORD32_SPAN
  {
    hide BlockHeader, EncodeBlock, Concat;
    var start, size := StartOf(crc, blocks, i), SizeOf(blocks[i]);
    InFile(crc, blocks, file, i);
    DropHeader(file, start, start + size, BlockHeader(crc, DATA_BLOCK, EncodeBlock(blocks[i])), EncodeBlock(blocks[i]));
    assert blocks[i] in blocks;
    if size >= WORD32_SPAN {
      assert Low32(size) < size;
    }
  }

  // ---- reading an entry ----

  // The record and how many bytes it took.
  function ParseEntry(b: Bytes): Option<(Rec, nat)> {
    match GetSlice(b)
    case None => None
    case Some((key, k)) =>
      match GetSlice(b[k..])
      case None => None
      case Some((value, v)) => Some((Rec(key, value), k + v))
  }

  lemma ParseTakesBytes(b: Bytes)
    ensures var p := ParseEntry(b); p.Some? ==> 1 <= p.value.1 <= |b|
  {
  }

  predicate Fits(r: Rec) {
    |r.key| < WORD32_SPAN && |r.value| < WORD32_SPAN
  }

  lemma EntryRoundTrip(r: Rec, rest: Bytes)
    requires Fits(r)
    ensures ParseEntry(EncodeRec(r) + rest) == Some((r, |EncodeRec(r)|))
  {
    hide PutSlice, GetSlice;
    var key, value := PutSlice(r.key), PutSlice(r.value);
    assert EncodeRec(r) + rest == key + (value + rest);
    assert (key + (value + rest))[|key|..] == value + rest;
    SliceRoundTrip(r.key, value + rest);
    SliceRoundTrip(r.value, rest);
  }

  // Record i starts where the first i end.
  lemma EntryIsThere(rs: Table, i: nat)
    requires i < |rs|
    ensures |EncodeBlock(rs[..i + 1])| == |EncodeBlock(rs[..i])| + |EncodeRec(rs[i])| <= |EncodeBlock(rs)|
    ensures EncodeRec(rs[i]) <= EncodeBlock(rs)[|EncodeBlock(rs[..i])|..]
  {
    hide EncodeRec;
    PartIsThere(RecList(rs), i);
    assert RecList(rs[..i]) == RecList(rs)[..i] && RecList(rs[..i + 1]) == RecList(rs)[..i + 1];
    assert EncodeRec(rs[i]) == EncodeBlock(rs)[|EncodeBlock(rs[..i])|..|EncodeBlock(rs[..i + 1])|];
  }

  lemma ParsesEntry(rs: Table, i: nat)
    requires i < |rs| && Fits(rs[i])
    ensures |EncodeBlock(rs[..i])| < |EncodeBlock(rs[..i + 1])| <= |EncodeBlock(rs)|
    ensures ParseEntry(EncodeBlock(rs)[|EncodeBlock(rs[..i])|..])
         == Some((rs[i], |EncodeBlock(rs[..i + 1])| - |EncodeBlock(rs[..i])|))
  {
    hide EncodeRec, EncodeBlock, ParseEntry;
    EntryIsThere(rs, i);
    var tail := EncodeBlock(rs)[|EncodeBlock(rs[..i])|..];
    EntryRoundTrip(rs[i], tail[|EncodeRec(rs[i])|..]);
    assert tail == EncodeRec(rs[i]) + tail[|EncodeRec(rs[i])|..];
  }

  // ---- the iterator ----

  // Block sizes and string lengths within their 32 bits.
  predicate AllFit(blocks: seq<Table>) {
    forall i | 0 <= i < |blocks| :: SizeOf(blocks[i]) < WORD32_SPAN && forall j | 0 <= j < |blocks[i]| :: Fits(blocks[i][j])
  }

  // Record j of block i in the whole table.
  function Ordinal(blocks: seq<Table>, i: nat, j: nat): nat
    requires i < |blocks|
  {
    |Concat(blocks[..i])| + j
  }

  lemma OrdinalIsRight(blocks: seq<Table>, i: nat, j: nat)
    requires i < |blocks| && j < |blocks[i]|
    ensures Ordinal(blocks, i, j) < |Concat(blocks)| && Concat(blocks)[Ordinal(blocks, i, j)] == blocks[i][j]
  {
    PartIsThere(blocks, i);
    assert Concat(blocks)[|Concat(blocks[..i])|..|Concat(blocks[..i + 1])|][j] == blocks[i][j];
  }

  // The next record is the next of the block, or the first of the next block, or there is none.
  lemma NextOrdinal(blocks: seq<Table>, i: nat, j: nat)
    requires i < |blocks| && j < |blocks[i]| && [] !in blocks
    ensures var next := Ordinal(blocks, i, j) + 1;
            if j + 1 < |blocks[i]| then
              next == Ordinal(blocks, i, j + 1) < |Concat(blocks)| && Concat(blocks)[next] == blocks[i][j + 1]
            else if i + 1 < |blocks| then
              |blocks[i + 1]| > 0 && next == Ordinal(blocks, i + 1, 0) < |Concat(blocks)| && Concat(blocks)[next] == blocks[i + 1][0]
            else next == |Concat(blocks)|
  {
    hide Concat;
    PartIsThere(blocks, i);
    if j + 1 < |blocks[i]| {
      OrdinalIsRight(blocks, i, j + 1);
    } else if i + 1 < |blocks| {
      assert blocks[i + 1] in blocks;
      OrdinalIsRight(blocks, i + 1, 0);
    } else {
      assert blocks[..i + 1] == blocks;
    }
  }

  class SSTableIterator {
    const file: Bytes
    const index: seq<IndexEntry>
    ghost const crc: Checksum
    ghost const blocks: seq<Table>
    var valid: bool
    var ok: bool
    var currentBlock: int
    var blockData: Bytes
    var blockOffset: nat
    var current: Rec
    // For the proofs: how many records of the current block are parsed.
    ghost var parsed: nat

    constructor (file: Bytes, index: seq<IndexEntry>, ghost crc: Checksum, ghost blocks: seq<Table>)
      ensures !valid && ok && this.file == file && this.index == index && this.crc == crc && this.blocks == blocks
    {
      this.file, this.index, this.crc, this.blocks := file, index, crc, blocks;
      valid, ok, currentBlock, blockData, blockOffset, current, parsed := false, true, -1, [], 0, Rec([], []), 0;
    }

    // The file and the index are those of the blocks.
    ghost predicate Sound() {
      HoldsBlocks(crc, blocks, file) && index == IndexOf(crc, blocks) && AllFit(blocks)
    }

    ghost predicate InBlock()
      reads this
    {
      && 0 <= currentBlock < |blocks| && parsed <= |blocks[currentBlock]|
      && blockData == EncodeBlock(blocks[currentBlock]) && blockOffset == |EncodeBlock(blocks[currentBlock][..parsed])|
    }

    // The cursor is at a record of the table.
    ghost predicate AtRecord()
      reads this
    {
      InBlock() && valid && parsed > 0 && current == blocks[currentBlock][parsed - 1]
    }

    // Which record of the table that is.
    ghost function Position(): nat
      requires AtRecord()
      reads this
    {
      Ordinal(blocks, currentBlock, parsed - 1)
    }

    method LoadCurrentBlock()
      modifies this
      ensures currentBlock == old(currentBlock)
      ensures Sound() && 0 <= currentBlock < |index| ==> ok && InBlock() && parsed == 0 && blockData != []
    {
      hide EncodeBlock, Concat, IndexOf, Blocks;
      if currentBlock < 0 || currentBlock >= |index| {
        ok := false;
        return;
      }
      var entry := index[currentBlock];
      if Sound() {
        BlockReadsBack(crc, blocks, file, currentBlock);
        assert blocks[currentBlock] in blocks && blocks[currentBlock][..0] == [];
      }
      match ReadDataBlock(file, entry.offset, entry.size)
      case None =>
        ok, valid := false, false;
      case Some(data) =>
        ok, blockData, blockOffset := true, data, 0;
        parsed := 0;
    }

    method ParseCurrentEntry()
      modifies `valid, `ok, `current, `blockOffset, `parsed
      ensures valid ==> old(blockOffset) < blockOffset <= |blockData|
      ensures old(InBlock()) && AllFit(blocks) ==>
                if old(parsed) < |blocks[currentBlock]|
                then AtRecord() && parsed == old(parsed) + 1 && blockOffset > old(blockOffset)
                else !valid
    {
      hide EncodeBlock, ParseEntry;
      if InBlock() && AllFit(blocks) {
        ghost var rs := blocks[currentBlock];
        if parsed < |rs| {
          ParsesEntry(rs, parsed);
        } else {
          assert rs[..parsed] == rs;
        }
      }
      if blockOffset >= |blockData| {
        valid := false;
        return;
      }
      match ParseEntry(blockData[blockOffset..])
      case None =>
        valid, ok := false, false;
      case Some((rec, consumed)) =>
        ParseTakesBytes(blockData[blockOffset..]);
        current, valid, blockOffset := rec, true, blockOffset + consumed;
        parsed := parsed + 1;
    }

    method SeekToFirst()
      modifies this
      ensures valid ==> blockOffset <= |blockData| && 0 <= currentBlock < |index|
      ensures Sound() ==> if Concat(blocks) == [] then !valid else AtRecord() && Position() == 0 && current == Concat(blocks)[0]
    {
      hide EncodeBlock, IndexOf, Blocks;
      if index == [] {
        valid := false;
        return;
      }
      currentBlock := 0;
      LoadCurrentBlock();
      if Sound() {
        assert blocks[0] in blocks;
        OrdinalIsRight(blocks, 0, 0);
      }
      if blockData == [] {
        valid := false;
        return;
      }
      ParseCurrentEntry();
    }

    // The next record of the table, or none after the last. On a damaged one it still moves on.
    method Next()
      modifies this
      ensures old(valid && 0 <= currentBlock < |index|) && valid ==>
                && blockOffset <= |blockData| && currentBlock < |index|
                && (currentBlock > old(currentBlock)
                    || (currentBlock == old(currentBlock) && blockData == old(blockData) && blockOffset > old(blockOffset)))
      ensures old(Sound() && AtRecord()) ==>
                if old(Position()) + 1 < |Concat(blocks)|
                then AtRecord() && Position() == old(Position()) + 1 && current == Concat(blocks)[Position()]
                else !valid
    {
      hide EncodeBlock, IndexOf, Blocks, Concat;
      if !valid || currentBlock < 0 || currentBlock >= |index| {
        return;
      }
      if Sound() && AtRecord() {
        NextOrdinal(blocks, currentBlock, parsed - 1);
      }
      var was := blockOffset;
      ParseCurrentEntry();
      if valid && blockOffset > was {
        return;
      }
      currentBlock := currentBlock + 1;
      if currentBlock >= |index| {
        valid := false;
        return;
      }
      LoadCurrentBlock();
      if blockData == [] {
        valid := false;
        return;
      }
      ParseCurrentEntry();
    }
  }

  // A scan returns the table, record for record.
  method ReadAll(iter: SSTableIterator) returns (out: Table)
    modifies iter
    ensures iter.Sound() ==> out == Concat(iter.blocks)
  {
    hide Concat, EncodeBlock, SSTableIterator.Position, SSTableIterator.InBlock, SSTableIterator.Sound;
    out := [];
    ghost var all, sound := Concat(iter.blocks), iter.Sound();
    iter.SeekToFirst();
    EmptyPrefix(all);
    while iter.valid
      invariant iter.valid ==> iter.blockOffset <= |iter.blockData| && 0 <= iter.currentBlock < |iter.index|
      invariant sound ==> |out| <= |all| && out == all[..|out|] && (!iter.valid ==> |out| == |all|)
      invariant sound && iter.valid ==> iter.AtRecord() && iter.Position() == |out| < |all| && iter.current == all[|out|]
      decreases iter.valid, |iter.index| - iter.currentBlock, |iter.blockData| - iter.blockOffset
    {
      out := out + [iter.current];
      iter.Next();
    }
  }

  lemma EmptyPrefix(t: Table)
    ensures t[..0] == [] && (t == [] <==> |t| == 0)
  {
  }
}
