/** The records of a sorted table outside its data: index entries, metadata, and the fixed-size footer. */
module SsFields {
  import opened Types
  import opened Coding
  import opened SsTables

  // ---- fields ----

  // A string, a 64-bit varint, a 32-bit varint, a fixed 32-bit word.
  datatype Field = Text(s: Bytes) | Wide(n: nat) | Narrow(n: nat) | Fixed(n: nat)
  datatype Kind = TextKind | WideKind | NarrowKind | FixedKind

  function KindOf(f: Field): Kind {
    match f
    case Text(_) => TextKind
    case Wide(_) => WideKind
    case Narrow(_) => NarrowKind
    case Fixed(_) => FixedKind
  }

  predicate InRange(f: Field) {
    match f
    case Text(s) => |s| < WORD32_SPAN
    case Wide(n) => n < WORD_SPAN
    case Narrow(n) => n < WORD32_SPAN
    case Fixed(n) => n < WORD32_SPAN
  }

  function PutField(f: Field): Bytes {
    match f
    case Text(s) => PutSlice(s)
    case Wide(n) => PutVarint(n % WORD_SPAN)
    case Narrow(n) => PutVarint(n % WORD32_SPAN)
    case Fixed(n) => Word(n)
  }

  // The field and how many bytes it took.
  function GetField(b: Bytes, kind: Kind): Option<(Field, nat)> {
    match kind
    case TextKind => (match GetSlice(b) case Some((s, c)) => Some((Text(s), c)) case None => None)
    case WideKind => (match GetVarint64(b) case Some((n, c)) => Some((Wide(n), c)) case None => None)
    case NarrowKind => (match GetVarint32(b) case Some((n, c)) => Some((Narrow(n), c)) case None => None)
    case FixedKind => if |b| < WORD_SIZE then None else Some((Fixed(DecodeFixed(b[..WORD_SIZE])), WORD_SIZE))
  }

  function PutFields(fs: seq<Field>): Bytes {
    if fs == [] then [] else PutField(fs[0]) + PutFields(fs[1..])
  }

  // Bytes behind the last field are not looked at.
  function GetFields(b: Bytes, kinds: seq<Kind>): Option<seq<Field>> {
    if kinds == [] then Some([])
    else match GetField(b, kinds[0])
         case None => None
         case Some((f, c)) =>
           match GetFields(b[c..], kinds[1..])
           case None => None
           case Some(fs) => Some([f] + fs)
  }

  function KindsOf(fs: seq<Field>): (kinds: seq<Kind>)
    ensures |kinds| == |fs| && forall i | 0 <= i < |fs| :: kinds[i] == KindOf(fs[i])
  {
    seq(|fs|, i requires 0 <= i < |fs| => KindOf(fs[i]))
  }

  lemma WordRoundTrip(n: nat, rest: Bytes)
    requires n < WORD32_SPAN
    ensures (Word(n) + rest)[..WORD_SIZE] == Word(n) && DecodeFixed(Word(n)) == n
  {
    SpanOf4();
    FixedRoundTrip(n, WORD_SIZE);
  }

  lemma FieldRoundTrip(f: Field, rest: Bytes)
    requires InRange(f)
    ensures GetField(PutField(f) + rest, KindOf(f)) == Some((f, |PutField(f)|))
  {
    hide PutVarint, GetVarint, PutSlice, GetSlice, Word, DecodeFixed;
    match f
    case Text(s) => SliceRoundTrip(s, rest);
    case Wide(n) => Varint64RoundTrip(n, rest);
    case Narrow(n) => Varint32RoundTrip(n, rest);
    case Fixed(n) => WordRoundTrip(n, rest);
  }

  function Before(fs: seq<Field>, more: Option<seq<Field>>): Option<seq<Field>> {
    match more case None => None case Some(gs) => Some(fs + gs)
  }

  // Reading past the fields written goes on with what follows them.
  lemma {:induction false} ReadOn(fs: seq<Field>, rest: Bytes, kinds: seq<Kind>)
    requires forall i | 0 <= i < |fs| :: InRange(fs[i])
    ensures GetFields(PutFields(fs) + rest, KindsOf(fs) + kinds) == Before(fs, GetFields(rest, kinds))
  {
    hide GetField, PutField, InRange, GetFields;
    if fs == [] {
      assert PutFields(fs) + rest == rest && KindsOf(fs) + kinds == kinds;
      assert GetFields(rest, kinds).Some? ==> [] + GetFields(rest, kinds).value == GetFields(rest, kinds).value;
    } else {
      var others, left := PutFields(fs[1..]) + rest, KindsOf(fs[1..]) + kinds;
      ReadOn(fs[1..], rest, kinds);
      ReadFirst(fs[0], others, left);
      assert PutFields(fs) + rest == PutField(fs[0]) + others;
      assert KindsOf(fs) + kinds == [KindOf(fs[0])] + left;
      assert GetFields(rest, kinds).Some? ==>
          [fs[0]] + (fs[1..] + GetFields(rest, kinds).value) == fs + GetFields(rest, kinds).value;
    }
  }

  lemma ReadFirst(f: Field, others: Bytes, left: seq<Kind>)
    requires InRange(f)
    ensures GetFields(PutField(f) + others, [KindOf(f)] + left) == Before([f], GetFields(others, left))
  {
    hide GetField, PutField, InRange;
    FieldRoundTrip(f, others);
    assert (PutField(f) + others)[|PutField(f)|..] == others;
    assert ([KindOf(f)] + left)[1..] == left;
  }

  lemma FieldsRoundTrip(fs: seq<Field>, rest: Bytes)
    requires forall i | 0 <= i < |fs| :: InRange(fs[i])
    ensures GetFields(PutFields(fs) + rest, KindsOf(fs)) == Some(fs)
  {
    hide PutFields, InRange;
    ReadOn(fs, rest, []);
    assert KindsOf(fs) + [] == KindsOf(fs) && fs + [] == fs;
  }

  // ---- index entries ----

  function EncodeEntry(e: IndexEntry): Bytes {
    PutFields([Text(e.key), Wide(e.offset), Fixed(e.size), Fixed(0)])
  }

  function DecodeEntry(b: Bytes): Option<IndexEntry> {
    match GetFields(b, [TextKind, WideKind, FixedKind, FixedKind])
    case Some(fs) =>
      if |fs| == 4 && fs[0].Text? && fs[1].Wide? && fs[2].Fixed? then Some(IndexEntry(fs[0].s, fs[1].n, fs[2].n)) else None
    case None => None
  }

  predicate EntryInRange(e: IndexEntry) {
    |e.key| < WORD32_SPAN && e.offset < WORD_SPAN && e.size < WORD32_SPAN
  }

  lemma EntryFieldsRoundTrip(e: IndexEntry)
    requires EntryInRange(e)
    ensures DecodeEntry(EncodeEntry(e)) == Some(e)
  {
    hide PutFields, GetFields;
    var fs := [Text(e.key), Wide(e.offset), Fixed(e.size), Fixed(0)];
    FieldsRoundTrip(fs, []);
    assert PutFields(fs) + [] == PutFields(fs);
    assert KindsOf(fs) == [TextKind, WideKind, FixedKind, FixedKind];
  }

  // ---- metadata ----

  datatype Meta = Meta(filename: Bytes, number: nat, fileSize: nat, level: nat, smallest: Bytes, largest: Bytes,
                       entries: nat, deletions: nat, rawKeys: nat, rawValues: nat, created: nat, oldest: nat)

  function MetaFields(m: Meta): seq<Field> {
    [Text(m.filename), Wide(m.number), Wide(m.fileSize), Fixed(m.level), Text(m.smallest), Text(m.largest),
     Wide(m.entries), Wide(m.deletions), Wide(m.rawKeys), Wide(m.rawValues), Wide(m.created), Wide(m.oldest)]
  }

  const META_KINDS: seq<Kind> :=
    [TextKind, WideKind, WideKind, FixedKind, TextKind, TextKind, WideKind, WideKind, WideKind, WideKind, WideKind, WideKind]

  function EncodeMeta(m: Meta): Bytes {
    PutFields(MetaFields(m))
  }

  function DecodeMeta(b: Bytes): Option<Meta> {
    match GetFields(b, META_KINDS)
    case Some(fs) =>
      if |fs| == 12 && fs[0].Text? && fs[1].Wide? && fs[2].Wide? && fs[3].Fixed? && fs[4].Text? && fs[5].Text?
         && (forall i | 6 <= i < 12 :: fs[i].Wide?)
      then Some(Meta(fs[0].s, fs[1].n, fs[2].n, fs[3].n, fs[4].s, fs[5].s, fs[6].n, fs[7].n, fs[8].n, fs[9].n, fs[10].n, fs[11].n))
      else None
    case None => None
  }

  predicate MetaInRange(m: Meta) {
    forall i | 0 <= i < |MetaFields(m)| :: InRange(MetaFields(m)[i])
  }

  lemma MetaRoundTrip(m: Meta)
    requires MetaInRange(m)
    ensures DecodeMeta(EncodeMeta(m)) == Some(m)
  {
    hide PutFields, GetFields;
    var fs := MetaFields(m);
    FieldsRoundTrip(fs, []);
    assert PutFields(fs) + [] == PutFields(fs);
    assert KindsOf(fs) == META_KINDS;
  }

  // ---- the footer ----

  const FOOTER_SIZE: nat := 48
  const MAGIC: nat := 0x57A7AB1E
  const VERSION: nat := 1

  // Where the metadata, the index and the filter are.
  datatype Footer = Footer(metaOffset: nat, metaSize: nat, indexOffset: nat, indexSize: nat, bloomOffset: nat, bloomSize: nat)
  datatype FooterRead = Corrupt | Unsupported | Opened(footer: Footer)

  function Places(f: Footer): (fs: seq<Field>)
    ensures |fs| == 7
  {
    [Wide(f.metaOffset), Narrow(f.metaSize), Wide(f.indexOffset), Narrow(f.indexSize),
     Wide(f.bloomOffset), Narrow(f.bloomSize), Narrow(VERSION)]
  }

  const FOOTER_KINDS: seq<Kind> :=
    [WideKind, NarrowKind, WideKind, NarrowKind, WideKind, NarrowKind, NarrowKind, NarrowKind]

  predicate FooterInRange(f: Footer) {
    forall i | 0 <= i < 7 :: InRange(Places(f)[i])
  }

  function FooterBody(f: Footer): Bytes {
    PutFields(Places(f)) + PutField(Narrow(MAGIC))
  }

  // Cut or padded with zeros to the given length.
  function Resize(b: Bytes, n: nat): (r: Bytes)
    ensures |r| == n
  {
    if |b| >= n then b[..n] else b + seq(n - |b|, _ => 0)
  }

  function EncodeFooter(f: Footer): (b: Bytes)
    ensures |b| == FOOTER_SIZE
  {
    Resize(FooterBody(f), FOOTER_SIZE)
  }

  function DecodeFooter(b: Bytes): FooterRead {
    match GetFields(b, FOOTER_KINDS)
    case None => Corrupt
    case Some(fs) =>
      if |fs| != 8 || (exists i | 0 <= i < 8 :: !fs[i].Wide? && !fs[i].Narrow?) || fs[7].n != MAGIC then Corrupt
      else if fs[6].n != VERSION then Unsupported
      else Opened(Footer(fs[0].n, fs[1].n, fs[2].n, fs[3].n, fs[4].n, fs[5].n))
  }

  lemma {:induction false} TruncatedVarint(v: nat, cut: nat, n: nat)
    requires cut < |PutVarint(v)|
    ensures GetVarint(PutVarint(v)[..cut], n) == None
  {
    if cut > 0 && n > 0 {
      TruncatedVarint(v / 128, cut - 1, n - 1);
      assert PutVarint(v)[..cut][1..] == PutVarint(v / 128)[..cut - 1];
    }
  }

  lemma MagicLength()
    ensures |PutField(Narrow(MAGIC))| == 5
  {
    VarSpans();
    assert VarSpan(4) == 0x1000_0000;
    VarintLength(MAGIC, 4);
    VarintLength(MAGIC, 5);
  }

  // With offsets below 128^n, the footer needs at most 3n + 21 bytes.
  lemma FooterLength(f: Footer, n: nat)
    requires FooterInRange(f) && n >= 1
    requires f.metaOffset < VarSpan(n) && f.indexOffset < VarSpan(n) && f.bloomOffset < VarSpan(n)
    ensures |PutFields(Places(f))| <= 3 * n + 16 && |FooterBody(f)| == |PutFields(Places(f))| + 5
  {
    hide PutVarint;
    var fs := Places(f);
    assert InRange(fs[0]) && InRange(fs[1]) && InRange(fs[2]) && InRange(fs[3]) && InRange(fs[4]) && InRange(fs[5]);
    VarSpans();
    VarintLength(f.metaOffset, n);
    VarintLength(f.indexOffset, n);
    VarintLength(f.bloomOffset, n);
    VarintLength(f.metaSize, 5);
    VarintLength(f.indexSize, 5);
    VarintLength(f.bloomSize, 5);
    assert VarSpan(1) == 128;
    VarintLength(VERSION, 1);
    MagicLength();
    PutSeven(fs);
  }

  lemma PutSeven(fs: seq<Field>)
    requires |fs| == 7
    ensures |PutFields(fs)| == |PutField(fs[0])| + |PutField(fs[1])| + |PutField(fs[2])| + |PutField(fs[3])|
                               + |PutField(fs[4])| + |PutField(fs[5])| + |PutField(fs[6])|
  {
    hide PutField;
    assert PutFields(fs[6..]) == PutField(fs[6]);
    assert fs[5..][1..] == fs[6..] && fs[4..][1..] == fs[5..] && fs[3..][1..] == fs[4..];
    assert fs[2..][1..] == fs[3..] && fs[1..][1..] == fs[2..];
    assert |PutFields(fs[4..])| == |PutField(fs[4])| + |PutFields(fs[5..])|;
    assert |PutFields(fs[3..])| == |PutField(fs[3])| + |PutFields(fs[4..])|;
    assert |PutFields(fs[2..])| == |PutField(fs[2])| + |PutFields(fs[3..])|;
    assert |PutFields(fs[1..])| == |PutField(fs[1])| + |PutFields(fs[2..])|;
  }

  // A footer parses back exactly if it was not cut to fit: then its magic number is cut short.
  lemma FooterParsesBack(f: Footer)
    requires FooterInRange(f)
    ensures DecodeFooter(EncodeFooter(f)) == Opened(f) <==> |FooterBody(f)| <= FOOTER_SIZE
  {
    hide PutFields, GetFields, PutField, FooterInRange;
    var fs, magic := Places(f), PutField(Narrow(MAGIC));
    var body := FooterBody(f);
    var kinds := KindsOfPlaces(f);
    if |body| <= FOOTER_SIZE {
      ShortFooter(f);
    } else {
      LongFooter(f);
    }
  }

  lemma KindsOfPlaces(f: Footer) returns (kinds: seq<Kind>)
    ensures kinds == KindsOf(Places(f)) && FOOTER_KINDS == kinds + [NarrowKind]
  {
    kinds := KindsOf(Places(f));
  }

  lemma ShortFooter(f: Footer)
    requires FooterInRange(f) && |FooterBody(f)| <= FOOTER_SIZE
    ensures DecodeFooter(EncodeFooter(f)) == Opened(f)
  {
    hide PutFields, GetFields, PutField;
    var fs, magic := Places(f), Narrow(MAGIC);
    var pad: Bytes := EncodeFooter(f)[|FooterBody(f)|..];
    var kinds := KindsOfPlaces(f);
    assert KindsOf(fs + [magic]) == FOOTER_KINDS by {
      assert (fs + [magic])[1..] == fs[1..] + [magic];
    }
    var all := fs + [magic];
    assert EncodeFooter(f) == PutFields(fs) + (PutField(magic) + pad);
    ReadOn(fs, PutField(magic) + pad, [NarrowKind]);
    ReadMagic(pad);
    assert GetFields(EncodeFooter(f), FOOTER_KINDS) == Some(all);
  }

  lemma ReadMagic(pad: Bytes)
    ensures GetFields(PutField(Narrow(MAGIC)) + pad, [NarrowKind]) == Some([Narrow(MAGIC)])
  {
    FieldsRoundTrip([Narrow(MAGIC)], pad);
    assert PutFields([Narrow(MAGIC)]) == PutField(Narrow(MAGIC));
    assert KindsOf([Narrow(MAGIC)]) == [NarrowKind];
  }

  lemma LongFooter(f: Footer)
    requires FooterInRange(f) && |FooterBody(f)| > FOOTER_SIZE
    ensures DecodeFooter(EncodeFooter(f)) == Corrupt
  {
    hide PutFields, PutField;
    var fs, magic := Places(f), PutField(Narrow(MAGIC));
    var kinds := KindsOfPlaces(f);
    VarSpans();
    assert InRange(fs[0]) && InRange(fs[2]) && InRange(fs[4]);
    FooterLength(f, 10);
    var cut := FOOTER_SIZE - |PutFields(fs)|;
    assert EncodeFooter(f) == PutFields(fs) + magic[..cut];
    ReadOn(fs, magic[..cut], [NarrowKind]);
    CutMagic(cut);
  }

  lemma CutMagic(cut: nat)
    requires cut < |PutField(Narrow(MAGIC))|
    ensures GetFields(PutField(Narrow(MAGIC))[..cut], [NarrowKind]) == None
  {
    TruncatedVarint(MAGIC, cut, 5);
  }

  // Offsets below 2^63 always fit.
  lemma SmallOffsetsFit(f: Footer)
    requires FooterInRange(f)
    requires f.metaOffset < 0x8000_0000_0000_0000 && f.indexOffset < 0x8000_0000_0000_0000 && f.bloomOffset < 0x8000_0000_0000_0000
    ensures DecodeFooter(EncodeFooter(f)) == Opened(f)
  {
    VarSpans();
    FooterLength(f, 9);
    FooterParsesBack(f);
  }

  // An offset of 2^63 need not: behind two other offsets of nine bytes and sizes of five, it pushes
  // the last byte of the magic number out of the footer.
  lemma FooterBoundIsTight(f: Footer)
    requires FooterInRange(f) && f.metaOffset == 0x8000_0000_0000_0000
    requires f.indexOffset >= 0x100_0000_0000_0000 && f.bloomOffset >= 0x100_0000_0000_0000
    requires f.metaSize >= 0x1000_0000 && f.indexSize >= 0x1000_0000 && f.bloomSize >= 0x1000_0000
    ensures DecodeFooter(EncodeFooter(f)) == Corrupt
  {
    hide PutVarint;
    var fs := Places(f);
    assert InRange(fs[0]) && InRange(fs[1]) && InRange(fs[2]) && InRange(fs[3]) && InRange(fs[4]) && InRange(fs[5]);
    VarSpans();
    MoreSpans();
    VarintLength(f.metaOffset, 9);
    VarintLength(f.indexOffset, 8);
    VarintLength(f.bloomOffset, 8);
    VarintLength(f.metaSize, 4);
    VarintLength(f.indexSize, 4);
    VarintLength(f.bloomSize, 4);
    MagicLength();
    PutSeven(fs);
    LongFooter(f);
  }

  lemma MoreSpans()
    ensures VarSpan(4) == 0x1000_0000 && VarSpan(8) == 0x100_0000_0000_0000
  {
    assert VarSpan(6) == 0x400_0000_0000;
  }
}
