/** Records of the write-ahead log as bytes, and the frames they are read back from. */
module WalCodec {
  import opened Types
  import opened Coding

  type Word32 = x: int | 0 <= x < 0x1_0000_0000
  type Word64 = x: int | 0 <= x < WORD_SPAN

  // The checksum is any function of the bytes it covers.
  type Crc = Bytes -> Word32

  datatype WalRecord = WalRecord(kind: Byte, seqno: Word64, family: Word32, txn: Word64, key: Bytes, value: Bytes)

  datatype Status = Ok | Corruption | Incomplete | InvalidArgument

  datatype Decoding = Decoded(record: WalRecord) | Bad(status: Status)

  const HEADER_SIZE: nat := 29
  const MIN_RECORD: nat := 33
  const MAX_READ: nat := 100 * 1024 * 1024
  const MAX_WRITE: nat := 128 * 1024 * 1024

  // ---- one record ----

  // The lengths are not covered.
  function Covered(r: WalRecord): Bytes {
    [r.kind] + PutFixed(r.seqno, 8) + PutFixed(r.family, 4) + PutFixed(r.txn, 8) + r.key + r.value
  }

  // Lengths are cut to 32 bits.
  function Header(r: WalRecord): (h: Bytes)
    ensures |h| == HEADER_SIZE
  {
    [r.kind] + PutFixed(r.seqno, 8) + PutFixed(r.family, 4) + PutFixed(r.txn, 8)
      + PutFixed(|r.key| % 0x1_0000_0000, 4) + PutFixed(|r.value| % 0x1_0000_0000, 4)
  }

  function EncodeRecord(crc: Crc, r: WalRecord): (b: Bytes)
    ensures |b| == MIN_RECORD + |r.key| + |r.value|
  {
    Header(r) + r.key + r.value + PutFixed(crc(Covered(r)), 4)
  }

  function DecodeRecord(crc: Crc, b: Bytes): Decoding {
    if |b| < MIN_RECORD then Bad(Corruption)
    else
      var keyLen, valueLen := DecodeFixed(b[21..25]), DecodeFixed(b[25..29]);
      if |b| != MIN_RECORD + keyLen + valueLen then Bad(Corruption)
      else
        Ranges(b);
        var r := WalRecord(b[0], DecodeFixed(b[1..9]), DecodeFixed(b[9..13]), DecodeFixed(b[13..21]),
                           b[29..29 + keyLen], b[29 + keyLen..29 + keyLen + valueLen]);
        if DecodeFixed(b[|b| - 4..]) == crc(Covered(r)) then Decoded(r) else Bad(Corruption)
  }

  lemma Ranges(b: Bytes)
    requires |b| >= MIN_RECORD
    ensures DecodeFixed(b[1..9]) < WORD_SPAN && DecodeFixed(b[13..21]) < WORD_SPAN
    ensures DecodeFixed(b[9..13]) < 0x1_0000_0000
    ensures DecodeFixed(b[21..25]) < 0x1_0000_0000 && DecodeFixed(b[25..29]) < 0x1_0000_0000
  {
    SpanOf4();
    SpanOf8();
    FixedIsOnto(b[1..9]);
    FixedIsOnto(b[13..21]);
    FixedIsOnto(b[9..13]);
    FixedIsOnto(b[21..25]);
    FixedIsOnto(b[25..29]);
  }

  // A record whose lengths fit their fields.
  predicate Fits(r: WalRecord) {
    |r.key| < 0x1_0000_0000 && |r.value| < 0x1_0000_0000
  }

  lemma HeaderParts(r: WalRecord, h: Bytes)
    requires Fits(r) && h == Header(r)
    ensures h[0] == r.kind && h[1..9] == PutFixed(r.seqno, 8) && h[9..13] == PutFixed(r.family, 4)
    ensures h[13..21] == PutFixed(r.txn, 8) && h[21..25] == PutFixed(|r.key|, 4) && h[25..29] == PutFixed(|r.value|, 4)
  {
    assert |r.key| % 0x1_0000_0000 == |r.key| && |r.value| % 0x1_0000_0000 == |r.value|;
    SixParts([r.kind], PutFixed(r.seqno, 8), PutFixed(r.family, 4), PutFixed(r.txn, 8),
             PutFixed(|r.key|, 4), PutFixed(|r.value|, 4));
  }

  lemma SixParts(a: Bytes, b: Bytes, c: Bytes, d: Bytes, e: Bytes, f: Bytes)
    requires |a| == 1 && |b| == 8 && |c| == 4 && |d| == 8 && |e| == 4 && |f| == 4
    ensures var h := a + b + c + d + e + f;
            h[0] == a[0] && h[1..9] == b && h[9..13] == c && h[13..21] == d && h[21..25] == e && h[25..29] == f
  {
  }

  lemma HeaderValues(r: WalRecord, h: Bytes)
    requires Fits(r) && h == Header(r)
    ensures h[0] == r.kind && DecodeFixed(h[1..9]) == r.seqno && DecodeFixed(h[9..13]) == r.family
    ensures DecodeFixed(h[13..21]) == r.txn && DecodeFixed(h[21..25]) == |r.key| && DecodeFixed(h[25..29]) == |r.value|
  {
    HeaderParts(r, h);
    SpanOf4();
    SpanOf8();
    FixedRoundTrip(r.seqno, 8);
    FixedRoundTrip(r.family, 4);
    FixedRoundTrip(r.txn, 8);
    FixedRoundTrip(|r.key|, 4);
    FixedRoundTrip(|r.value|, 4);
  }

  lemma Pieces(h: Bytes, key: Bytes, value: Bytes, tail: Bytes, b: Bytes)
    requires |h| == HEADER_SIZE && |tail| == 4 && b == h + key + value + tail
    ensures b[0] == h[0] && b[1..9] == h[1..9] && b[9..13] == h[9..13] && b[13..21] == h[13..21]
    ensures b[21..25] == h[21..25] && b[25..29] == h[25..29]
    ensures b[29..29 + |key|] == key && b[29 + |key|..29 + |key| + |value|] == value && b[|b| - 4..] == tail
  {
  }

  // Decoding what was encoded gives the record back ...
  lemma DecodeOfEncode(crc: Crc, r: WalRecord)
    requires Fits(r)
    ensures DecodeRecord(crc, EncodeRecord(crc, r)) == Decoded(r)
  {
    var h, b, tail := Header(r), EncodeRecord(crc, r), PutFixed(crc(Covered(r)), 4);
    HeaderValues(r, h);
    Pieces(h, r.key, r.value, tail, b);
    SpanOf4();
    FixedRoundTrip(crc(Covered(r)), 4);
  }

  // ... and only encodings are decoded.
  lemma EncodeOfDecode(crc: Crc, b: Bytes)
    requires DecodeRecord(crc, b).Decoded?
    ensures Fits(DecodeRecord(crc, b).record) && EncodeRecord(crc, DecodeRecord(crc, b).record) == b
  {
    var r := DecodeRecord(crc, b).record;
    Ranges(b);
    HeaderIsStart(crc, b);
    FixedIsOnto(b[|b| - 4..]);
    Reassemble(b, |r.key|, |r.value|);
  }

  lemma Reassemble(b: Bytes, m: nat, n: nat)
    requires |b| == MIN_RECORD + m + n
    ensures b[..29] + b[29..29 + m] + b[29 + m..29 + m + n] + b[|b| - 4..] == b
  {
  }

  lemma HeaderIsStart(crc: Crc, b: Bytes)
    requires DecodeRecord(crc, b).Decoded?
    ensures Header(DecodeRecord(crc, b).record) == b[..29]
  {
    Ranges(b);
    HeaderFromParts(b, DecodeRecord(crc, b).record);
  }

  lemma HeaderFromParts(b: Bytes, r: WalRecord)
    requires |b| >= MIN_RECORD && Fits(r) && r.kind == b[0]
    requires r.seqno == DecodeFixed(b[1..9]) && r.family == DecodeFixed(b[9..13]) && r.txn == DecodeFixed(b[13..21])
    requires |r.key| == DecodeFixed(b[21..25]) && |r.value| == DecodeFixed(b[25..29])
    ensures Header(r) == b[..29]
  {
    FieldRoundTrip(b, 1, 8);
    FieldRoundTrip(b, 9, 4);
    FieldRoundTrip(b, 13, 8);
    FieldRoundTrip(b, 21, 4);
    FieldRoundTrip(b, 25, 4);
    assert |r.key| % 0x1_0000_0000 == |r.key| && |r.value| % 0x1_0000_0000 == |r.value|;
    HeaderSlices(b);
  }

  lemma FieldRoundTrip(b: Bytes, at: nat, n: nat)
    requires at + n <= |b|
    ensures PutFixed(DecodeFixed(b[at..at + n]), n) == b[at..at + n]
  {
    FixedIsOnto(b[at..at + n]);
  }

  lemma HeaderSlices(b: Bytes)
    requires |b| >= HEADER_SIZE
    ensures [b[0]] + b[1..9] + b[9..13] + b[13..21] + b[21..25] + b[25..29] == b[..29]
  {
  }

  // Decode accepts exactly the encodings of records, and returns the record.
  lemma DecodeInverts(crc: Crc, b: Bytes, r: WalRecord)
    ensures DecodeRecord(crc, b) == Decoded(r) <==> Fits(r) && b == EncodeRecord(crc, r)
  {
    if DecodeRecord(crc, b) == Decoded(r) {
      EncodeOfDecode(crc, b);
    }
    if Fits(r) && b == EncodeRecord(crc, r) {
      DecodeOfEncode(crc, r);
    }
  }

  // ---- frames ----

  function Frame(crc: Crc, r: WalRecord): (b: Bytes)
    ensures |b| == 4 + MIN_RECORD + |r.key| + |r.value|
  {
    PutFixed(|EncodeRecord(crc, r)| % 0x1_0000_0000, 4) + EncodeRecord(crc, r)
  }

  datatype Reading = Read(record: WalRecord, size: nat) | NoMore(status: Status)

  // The next record of a file.
  function ReadOne(crc: Crc, file: Bytes): Reading {
    if |file| < 4 then NoMore(Incomplete)
    else
      var size := DecodeFixed(file[..4]);
      if size == 0 || size > MAX_READ then NoMore(Corruption)
      else if |file| - 4 < size then NoMore(Corruption)
      else match DecodeRecord(crc, file[4..4 + size])
           case Decoded(r) => Read(r, 4 + size)
           case Bad(status) => NoMore(status)
  }

  // Everything up to the first status that is not Ok.
  function ReadAll(crc: Crc, file: Bytes): (seq<WalRecord>, Status)
    decreases |file|
  {
    match ReadOne(crc, file)
    case NoMore(status) => ([], status)
    case Read(r, size) =>
      if size > |file| then ([], Corruption)
      else var rest := ReadAll(crc, file[size..]); ([r] + rest.0, rest.1)
  }

  lemma NextOfAll(crc: Crc, file: Bytes)
    ensures ReadOne(crc, file).Read? ==>
              var r, size := ReadOne(crc, file).record, ReadOne(crc, file).size;
              0 < size <= |file| && ReadAll(crc, file) == ([r] + ReadAll(crc, file[size..]).0, ReadAll(crc, file[size..]).1)
    ensures ReadOne(crc, file).NoMore? ==>
              ReadOne(crc, file).status != Ok && ReadAll(crc, file) == ([], ReadOne(crc, file).status)
  {
  }

  // Small enough to be read back.
  predicate Readable(r: WalRecord) {
    MIN_RECORD + |r.key| + |r.value| <= MAX_READ
  }

  lemma FrameParts(crc: Crc, r: WalRecord, rest: Bytes)
    requires MIN_RECORD + |r.key| + |r.value| < 0x1_0000_0000
    ensures var file := Frame(crc, r) + rest;
            DecodeFixed(file[..4]) == |EncodeRecord(crc, r)| && file[4..4 + |EncodeRecord(crc, r)|] == EncodeRecord(crc, r)
  {
    var encoded := EncodeRecord(crc, r);
    SpanOf4();
    FixedRoundTrip(|encoded|, 4);
    assert |encoded| % 0x1_0000_0000 == |encoded|;
    ThreeParts(PutFixed(|encoded|, 4), encoded, rest);
  }

  lemma ThreeParts(a: Bytes, b: Bytes, c: Bytes)
    requires |a| == 4
    ensures (a + b + c)[..4] == a && (a + b + c)[4..4 + |b|] == b
  {
  }

  // A record takes 33 bytes beside its key and value. The writer lets 128 MiB through; what is
  // written is read back exactly if it is at most 100 MiB, and a larger one ends the reading of
  // its file.
  lemma FrameIsReadWhen(crc: Crc, r: WalRecord, rest: Bytes)
    requires 33 + |r.key| + |r.value| <= 134_217_728
    ensures ReadOne(crc, Frame(crc, r) + rest)
         == if 33 + |r.key| + |r.value| <= 104_857_600 then Read(r, |Frame(crc, r)|) else NoMore(Corruption)
  {
    FrameParts(crc, r, rest);
    DecodeOfEncode(crc, r);
  }

  // A frame cut short is not read.
  lemma CutFrame(crc: Crc, r: WalRecord, n: nat)
    requires Readable(r) && n < |Frame(crc, r)|
    ensures ReadOne(crc, Frame(crc, r)[..n]) == NoMore(if n < 4 then Incomplete else Corruption)
  {
    var file := Frame(crc, r)[..n];
    if n >= 4 {
      FrameParts(crc, r, []);
      assert file[..4] == (Frame(crc, r) + [])[..4];
    }
  }

  // f is read as r whatever follows it, and not at all if it is cut short.
  ghost predicate IsFrameOf(crc: Crc, f: Bytes, r: WalRecord) {
    && (forall rest :: ReadOne(crc, f + rest) == Read(r, |f|))
    && (forall n | 0 <= n < |f| :: ReadOne(crc, f[..n]) == NoMore(if n < 4 then Incomplete else Corruption))
  }

  lemma FrameIsFrame(crc: Crc, r: WalRecord)
    requires Readable(r)
    ensures IsFrameOf(crc, Frame(crc, r), r)
  {
    forall rest
      ensures ReadOne(crc, Frame(crc, r) + rest) == Read(r, |Frame(crc, r)|)
    {
      FrameIsReadWhen(crc, r, rest);
    }
    forall n | 0 <= n < |Frame(crc, r)|
      ensures ReadOne(crc, Frame(crc, r)[..n]) == NoMore(if n < 4 then Incomplete else Corruption)
    {
      CutFrame(crc, r, n);
    }
  }

  function Joined(fs: seq<Bytes>): Bytes {
    if fs == [] then [] else fs[0] + Joined(fs[1..])
  }

  // How many leading frames lie within the first n bytes.
  function Complete(fs: seq<Bytes>, n: nat): (m: nat)
    ensures m <= |fs| && |Joined(fs[..m])| <= n
  {
    if fs == [] || |fs[0]| > n then 0
    else
      var m := Complete(fs[1..], n - |fs[0]|);
      assert fs[..m + 1][1..] == fs[1..][..m];
      1 + m
  }

  lemma {:induction false} PrefixOfFrames(crc: Crc, fs: seq<Bytes>, rs: seq<WalRecord>, n: nat)
    requires |fs| == |rs| && (forall i | 0 <= i < |fs| :: IsFrameOf(crc, fs[i], rs[i])) && n <= |Joined(fs)|
    ensures var m := Complete(fs, n);
            ReadAll(crc, Joined(fs)[..n]) == (rs[..m], if n - |Joined(fs[..m])| < 4 then Incomplete else Corruption)
  {
    if fs != [] {
      assert IsFrameOf(crc, fs[0], rs[0]);
      if n < |fs[0]| {
        assert Joined(fs)[..n] == fs[0][..n];
      } else {
        PrefixOfFrames(crc, fs[1..], rs[1..], n - |fs[0]|);
        ReadFirst(crc, fs[0], rs[0], Joined(fs[1..])[..n - |fs[0]|]);
        OneFrameMore(fs, rs, n);
      }
    }
  }

  lemma ReadFirst(crc: Crc, f: Bytes, r: WalRecord, tail: Bytes)
    requires IsFrameOf(crc, f, r)
    ensures ReadAll(crc, f + tail) == ([r] + ReadAll(crc, tail).0, ReadAll(crc, tail).1)
  {
    assert ReadOne(crc, f + tail) == Read(r, |f|);
    assert (f + tail)[|f|..] == tail;
  }

  lemma OneFrameMore(fs: seq<Bytes>, rs: seq<WalRecord>, n: nat)
    requires fs != [] && |fs| == |rs| && |fs[0]| <= n <= |Joined(fs)|
    ensures var m := Complete(fs[1..], n - |fs[0]|);
            && Complete(fs, n) == m + 1 && rs[..m + 1] == [rs[0]] + rs[1..][..m]
            && |Joined(fs[..m + 1])| == |fs[0]| + |Joined(fs[1..][..m])|
    ensures Joined(fs)[..n] == fs[0] + Joined(fs[1..])[..n - |fs[0]|]
  {
    var m := Complete(fs[1..], n - |fs[0]|);
    assert fs[..m + 1][1..] == fs[1..][..m];
  }

  function FramesOf(crc: Crc, rs: seq<WalRecord>): (fs: seq<Bytes>)
    ensures |fs| == |rs| && forall i | 0 <= i < |rs| :: fs[i] == Frame(crc, rs[i])
  {
    seq(|rs|, i requires 0 <= i < |rs| => Frame(crc, rs[i]))
  }

  // From any byte prefix of a log exactly the complete records are read; the status tells a
  // rest of up to three bytes from a longer one.
  lemma PrefixReadsComplete(crc: Crc, rs: seq<WalRecord>, n: nat)
    requires (forall r | r in rs :: Readable(r)) && n <= |Joined(FramesOf(crc, rs))|
    ensures var fs := FramesOf(crc, rs);
            var m := Complete(fs, n);
            ReadAll(crc, Joined(fs)[..n]) == (rs[..m], if n - |Joined(fs[..m])| < 4 then Incomplete else Corruption)
  {
    forall i | 0 <= i < |rs|
      ensures IsFrameOf(crc, FramesOf(crc, rs)[i], rs[i])
    {
      FrameIsFrame(crc, rs[i]);
    }
    PrefixOfFrames(crc, FramesOf(crc, rs), rs, n);
  }

  // ---- the writer and the reader ----

  class WalWriter {
    const crc: Crc
    var file: Bytes

    constructor (crc: Crc)
      ensures this.crc == crc && file == []
    {
      this.crc, file := crc, [];
    }

    method WriteRecord(r: WalRecord) returns (status: Status)
      modifies this
      ensures status == if MIN_RECORD + |r.key| + |r.value| > MAX_WRITE then InvalidArgument else Ok
      ensures file == if status == Ok then old(file) + Frame(crc, r) else old(file)
    {
      var encoded := EncodeRecord(crc, r);
      if |encoded| > MAX_WRITE {
        return InvalidArgument;
      }
      assert |encoded| % 0x1_0000_0000 == |encoded|;
      file := file + (PutFixed(|encoded|, 4) + encoded);
      status := Ok;
    }
  }

  class WalReader {
    const crc: Crc
    const file: Bytes
    var pos: nat
    var eof: bool

    constructor (crc: Crc, file: Bytes)
      ensures this.crc == crc && this.file == file && pos == 0 && !eof
    {
      this.crc, this.file, pos, eof := crc, file, 0, false;
    }

    // A reader that failed stays where it was.
    method ReadNextRecord() returns (status: Status, record: Option<WalRecord>)
      requires pos <= |file| && !eof
      modifies this
      ensures pos <= |file|
      ensures match ReadOne(crc, file[old(pos)..])
              case Read(r, size) => status == Ok && record == Some(r) && pos == old(pos) + size && !eof
              case NoMore(s) => status == s && record == None && pos == old(pos)
    {
      if |file| - pos < 4 {
        eof := true;
        return Incomplete, None;
      }
      var size := DecodeFixed(file[pos..pos + 4]);
      assert file[pos..][..4] == file[pos..pos + 4];
      if size == 0 || size > MAX_READ {
        return Corruption, None;
      }
      if |file| - pos - 4 < size {
        return Corruption, None;
      }
      assert file[pos..][4..4 + size] == file[pos + 4..pos + 4 + size];
      match DecodeRecord(crc, file[pos + 4..pos + 4 + size]) {
        case Decoded(r) =>
          pos := pos + 4 + size;
          return Ok, Some(r);
        case Bad(s) =>
          return s, None;
      }
    }

    method ReadToEnd() returns (records: seq<WalRecord>, status: Status)
      requires pos == 0 && !eof
      modifies this
      ensures (records, status) == ReadAll(crc, file)
    {
      hide ReadOne, ReadAll;
      records, status := [], Ok;
      ghost var all, rest := ReadAll(crc, file), ReadAll(crc, file);
      assert file[0..] == file && records + rest.0 == all.0;
      while status == Ok
        invariant pos <= |file| && (status == Ok ==> !eof && rest == ReadAll(crc, file[pos..]))
        invariant if status == Ok then all == (records + rest.0, rest.1) else all == (records, status)
        decreases status == Ok, |file| - pos
      {
        var record;
        ghost var ahead, at := file[pos..], pos;
        NextOfAll(crc, ahead);
        status, record := ReadNextRecord();
        if status == Ok {
          assert file[pos..] == ahead[pos - at..];
          ghost var later := ReadAll(crc, file[pos..]);
          assert rest == ([record.value] + later.0, later.1);
          assert records + ([record.value] + later.0) == (records + [record.value]) + later.0;
          records, rest := records + [record.value], later;
        } else {
          assert rest == ([], status) && records + [] == records;
        }
      }
    }
  }
}
