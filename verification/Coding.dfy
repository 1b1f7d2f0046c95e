/** Byte codecs: fixed-width integers, internal keys, and the order of internal keys. */
module Coding {
  import opened Types
  import opened SkipLists

  // ---- fixed-width little-endian integers ----

  // 256^n.
  function Span(n: nat): (p: nat)
    ensures p >= 1
  {
    if n == 0 then 1 else 256 * Span(n - 1)
  }

  // The low n bytes of v, low byte first.
  function PutFixed(v: nat, n: nat): (b: Bytes)
    ensures |b| == n
  {
    if n == 0 then [] else [v % 256] + PutFixed(v / 256, n - 1)
  }

  function DecodeFixed(b: Bytes): nat {
    if b == [] then 0 else b[0] + 256 * DecodeFixed(b[1..])
  }

  lemma {:induction false} FixedRoundTrip(v: nat, n: nat)
    requires v < Span(n)
    ensures DecodeFixed(PutFixed(v, n)) == v
  {
    if n > 0 {
      FixedRoundTrip(v / 256, n - 1);
    }
  }

  lemma {:induction false} FixedIsOnto(b: Bytes)
    ensures DecodeFixed(b) < Span(|b|)
    ensures PutFixed(DecodeFixed(b), |b|) == b
  {
    if b != [] {
      FixedIsOnto(b[1..]);
      LowByte(b[0], DecodeFixed(b[1..]));
    }
  }

  lemma LowByte(x: Byte, d: nat)
    ensures (x + 256 * d) % 256 == x && (x + 256 * d) / 256 == d
  {
  }

  // ---- internal keys ----

  // A 56-bit sequence number and a one-byte type share the eight bytes behind the user key.
  const SEQ_SPAN: nat := 0x100_0000_0000_0000
  const WORD_SPAN: nat := 0x1_0000_0000_0000_0000
  const MAX_WORD: nat := WORD_SPAN - 1

  const VALUE: Byte := 1
  const DELETION: Byte := 2

  // What a record of this type says of its key; a value of any other type counts as put.
  function KindPayload(kind: Byte, value: Bytes): Payload {
    if kind == DELETION then Delete else Put(Value(value))
  }

  datatype Parsed = Parsed(user: Bytes, seqno: nat, kind: Byte)

  // The tag is a 64-bit word: the top byte of a longer sequence number is shifted out.
  function PutInternalKey(user: Bytes, seqno: nat, kind: Byte): Bytes {
    user + PutFixed((seqno * 256 + kind) % WORD_SPAN, 8)
  }

  function ParseInternalKey(b: Bytes): Option<Parsed> {
    if |b| < 8 then None
    else
      var tag := DecodeFixed(b[|b| - 8..]);
      Some(Parsed(b[..|b| - 8], tag / 256, tag % 256))
  }

  lemma SpanOf8()
    ensures Span(8) == WORD_SPAN
  {
    assert Span(2) == 0x1_0000 && Span(4) == 0x1_0000_0000 && Span(6) == 0x1_0000_0000_0000;
  }

  lemma SpanOf4()
    ensures Span(4) == WORD32_SPAN
  {
    assert Span(2) == 0x1_0000;
  }

  lemma TagParts(seqno: nat, kind: Byte)
    ensures var tag := (seqno * 256 + kind) % WORD_SPAN;
            tag / 256 == seqno % SEQ_SPAN && tag % 256 == kind
  {
    var q, r := seqno / SEQ_SPAN, seqno % SEQ_SPAN;
    assert seqno * 256 + kind == q * WORD_SPAN + (r * 256 + kind) && r * 256 + kind < WORD_SPAN;
    LowByte(kind, r);
  }

  // Encoding then parsing gives back everything but the bits of the sequence number beyond 56.
  lemma InternalKeyRoundTrip(user: Bytes, seqno: nat, kind: Byte)
    ensures ParseInternalKey(PutInternalKey(user, seqno, kind)) == Some(Parsed(user, seqno % SEQ_SPAN, kind))
  {
    var tag := (seqno * 256 + kind) % WORD_SPAN;
    SpanOf8();
    FixedRoundTrip(tag, 8);
    TagParts(seqno, kind);
    SplitTag(user, PutFixed(tag, 8));
  }

  lemma JoinTag(tag: nat)
    requires tag < WORD_SPAN
    ensures tag / 256 < SEQ_SPAN && (tag / 256 * 256 + tag % 256) % WORD_SPAN == tag
  {
  }

  lemma SplitTag(user: Bytes, tag: Bytes)
    requires |tag| == 8
    ensures (user + tag)[|user + tag| - 8..] == tag && (user + tag)[..|user + tag| - 8] == user
  {
  }

  // Every string of at least eight bytes is the encoding of exactly one internal key.
  lemma InternalKeyIsOnto(b: Bytes)
    requires |b| >= 8
    ensures var p := ParseInternalKey(b).value;
            p.seqno < SEQ_SPAN && PutInternalKey(p.user, p.seqno, p.kind) == b
  {
    SpanOf8();
    FixedIsOnto(b[|b| - 8..]);
    JoinTag(DecodeFixed(b[|b| - 8..]));
    assert b == b[..|b| - 8] + b[|b| - 8..];
  }

  // ---- variable-length integers ----

  // 128^n.
  function VarSpan(n: nat): (p: nat)
    ensures p >= 1
  {
    if n == 0 then 1 else 128 * VarSpan(n - 1)
  }

  // Seven bits a byte, low ones first; the top bit says that more follow.
  function PutVarint(v: nat): (b: Bytes)
    ensures |b| >= 1
  {
    if v < 128 then [v] else [128 + v % 128] + PutVarint(v / 128)
  }

  // Reads at most n bytes: the value and how many bytes it took.
  function GetVarint(b: Bytes, n: nat): (r: Option<(nat, nat)>)
    ensures r.Some? ==> 1 <= r.value.1 <= |b|
  {
    if n == 0 || b == [] then None
    else if b[0] < 128 then Some((b[0], 1))
    else match GetVarint(b[1..], n - 1)
         case Some((v, c)) => Some((b[0] - 128 + 128 * v, c + 1))
         case None => None
  }

  const WORD32_SPAN: nat := 0x1_0000_0000

  // Ten bytes for 64 bits, five for 32; bits beyond are lost.
  function GetVarint64(b: Bytes): Option<(nat, nat)> {
    match GetVarint(b, 10)
    case Some((v, c)) => Some((v % WORD_SPAN, c))
    case None => None
  }

  function GetVarint32(b: Bytes): Option<(nat, nat)> {
    match GetVarint(b, 5)
    case Some((v, c)) => Some((v % WORD32_SPAN, c))
    case None => None
  }

  lemma {:induction false} VarintLength(v: nat, n: nat)
    ensures v < VarSpan(n) && n >= 1 ==> |PutVarint(v)| <= n
    ensures v >= VarSpan(n) ==> |PutVarint(v)| > n
  {
    if n > 1 && v >= 128 {
      VarintLength(v / 128, n - 1);
    }
  }

  lemma {:induction false} VarintRoundTrip(v: nat, rest: Bytes, n: nat)
    requires n >= 1 && v < VarSpan(n)
    ensures GetVarint(PutVarint(v) + rest, n) == Some((v, |PutVarint(v)|))
  {
    if v >= 128 {
      VarintRoundTrip(v / 128, rest, n - 1);
      assert (PutVarint(v) + rest)[1..] == PutVarint(v / 128) + rest;
    }
  }

  lemma VarSpans()
    ensures VarSpan(5) == 0x8_0000_0000 && VarSpan(9) == 0x8000_0000_0000_0000
    ensures VarSpan(10) == 0x40_0000_0000_0000_0000
  {
    assert VarSpan(3) == 0x20_0000;
    assert VarSpan(6) == 0x400_0000_0000;
  }

  lemma Varint64RoundTrip(v: nat, rest: Bytes)
    requires v < WORD_SPAN
    ensures GetVarint64(PutVarint(v) + rest) == Some((v, |PutVarint(v)|)) && |PutVarint(v)| <= 10
  {
    VarSpans();
    VarintRoundTrip(v, rest, 10);
    VarintLength(v, 10);
  }

  lemma Varint32RoundTrip(v: nat, rest: Bytes)
    requires v < WORD32_SPAN
    ensures GetVarint32(PutVarint(v) + rest) == Some((v, |PutVarint(v)|)) && |PutVarint(v)| <= 5
  {
    VarSpans();
    VarintRoundTrip(v, rest, 5);
    VarintLength(v, 5);
  }

  method EncodeVarint64(value: nat) returns (b: Bytes)
    requires value < WORD_SPAN
    ensures b == PutVarint(value) && |b| <= 10
  {
    var v := value;
    b := [];
    while v >= 128
      invariant b + PutVarint(v) == PutVarint(value)
    {
      assert b + PutVarint(v) == (b + [128 + v % 128]) + PutVarint(v / 128);
      b, v := b + [128 + v % 128], v / 128;
    }
    b := b + [v];
    Varint64RoundTrip(value, []);
  }

  function Scaled(x: nat, scale: nat): nat {
    x * scale
  }

  // What is still to be read, with i bytes read already.
  function Continued(rest: Option<(nat, nat)>, result: nat, scale: nat, i: nat): Option<(nat, nat)> {
    match rest
    case Some((v, c)) => Some((result + Scaled(v, scale), c + i))
    case None => None
  }

  lemma ContinueVarint(b: Bytes, n: nat, result: nat, scale: nat, i: nat)
    requires n > 0 && b != [] && b[0] >= 128
    ensures Continued(GetVarint(b, n), result, scale, i)
         == Continued(GetVarint(b[1..], n - 1), result + Scaled(b[0] - 128, scale), scale * 128, i + 1)
  {
    var rest := GetVarint(b[1..], n - 1);
    if rest.Some? {
      Distribute(b[0] - 128, rest.value.0, scale);
    }
  }

  lemma Distribute(x: nat, v: nat, scale: nat)
    ensures Scaled(x + 128 * v, scale) == Scaled(x, scale) + Scaled(v, scale * 128)
  {
  }

  method DecodeVarint64(input: Bytes) returns (r: Option<(nat, nat)>)
    ensures r == GetVarint64(input)
  {
    var read := ReadVarint(input, 10);
    r := match read case Some((v, c)) => Some((v % WORD_SPAN, c)) case None => None;
  }

  method ReadVarint(input: Bytes, n: nat) returns (r: Option<(nat, nat)>)
    ensures r == GetVarint(input, n)
  {
    var result: nat, scale: nat, i: nat := 0, 1, 0;
    ghost var all, rest, left := GetVarint(input, n), input, n;
    assert input[0..] == input;
    while i < n && i < |input|
      invariant i <= n && i <= |input| && rest == input[i..] && left == n - i
      invariant all == Continued(GetVarint(rest, left), result, scale, i)
    {
      var x: nat := input[i];
      if x < 128 {
        return Some((result + Scaled(x, scale), i + 1));
      }
      ContinueVarint(rest, left, result, scale, i);
      result, scale, i := result + Scaled(x - 128, scale), scale * 128, i + 1;
      rest, left := rest[1..], left - 1;
    }
    return None;
  }

  // ---- length-prefixed strings ----

  function PutSlice(s: Bytes): (b: Bytes)
    ensures |b| >= 1 + |s|
  {
    PutVarint(|s| % WORD32_SPAN) + s
  }

  // The string and how many bytes it took with its length.
  function GetSlice(b: Bytes): Option<(Bytes, nat)> {
    match GetVarint32(b)
    case Some((len, c)) => if c <= |b| && len <= |b| - c then Some((b[c..c + len], c + len)) else None
    case None => None
  }

  lemma SliceRoundTrip(s: Bytes, rest: Bytes)
    requires |s| < WORD32_SPAN
    ensures GetSlice(PutSlice(s) + rest) == Some((s, |PutSlice(s)|))
  {
    var len := PutVarint(|s|);
    Varint32RoundTrip(|s|, s + rest);
    assert PutSlice(s) + rest == len + (s + rest);
    assert (len + (s + rest))[|len|..|len| + |s|] == s;
  }

  // ---- orders ----

  // Lexicographic, a prefix first.
  function Bytewise(a: Bytes, b: Bytes): int {
    if a == [] then (if b == [] then 0 else -1)
    else if b == [] then 1
    else if a[0] != b[0] then a[0] - b[0]
    else Bytewise(a[1..], b[1..])
  }

  // A user comparator as the MemTable needs it: a total order that tells keys apart.
  ghost predicate TotalOrder(cmp: (Bytes, Bytes) -> int) {
    TotalPreorder(cmp) && forall a, b :: cmp(a, b) == 0 <==> a == b
  }

  lemma {:induction false} BytewiseFlips(a: Bytes, b: Bytes)
    ensures Bytewise(a, b) < 0 <==> Bytewise(b, a) > 0
    ensures Bytewise(a, b) == 0 <==> a == b
  {
    if a != [] && b != [] && a[0] == b[0] {
      BytewiseFlips(a[1..], b[1..]);
      assert a == [a[0]] + a[1..] && b == [b[0]] + b[1..];
    }
  }

  lemma {:induction false} BytewiseChains(a: Bytes, b: Bytes, c: Bytes)
    requires Bytewise(a, b) <= 0 && Bytewise(b, c) <= 0
    ensures Bytewise(a, c) <= 0
  {
    if a != [] && b != [] && c != [] && a[0] == b[0] == c[0] {
      BytewiseChains(a[1..], b[1..], c[1..]);
    }
  }

  lemma BytewiseIsTotalOrder()
    ensures TotalOrder(Bytewise)
  {
    forall a, b
      ensures Bytewise(a, b) < 0 <==> Bytewise(b, a) > 0
      ensures Bytewise(a, b) == 0 <==> a == b
    {
      BytewiseFlips(a, b);
    }
    forall a, b, c | Bytewise(a, b) <= 0 && Bytewise(b, c) <= 0
      ensures Bytewise(a, c) <= 0
    {
      BytewiseChains(a, b, c);
    }
  }

  // By user key, then newest first, then by type; strings too short for a tag bytewise.
  function CompareInternal(user: (Bytes, Bytes) -> int, a: Bytes, b: Bytes): int {
    var pa, pb := ParseInternalKey(a), ParseInternalKey(b);
    if pa.None? || pb.None? then Bytewise(a, b)
    else CompareParsed(user, pa.value, pb.value)
  }

  function CompareParsed(user: (Bytes, Bytes) -> int, a: Parsed, b: Parsed): int {
    var c := user(a.user, b.user);
    if c != 0 then c
    else if a.seqno > b.seqno then -1
    else if a.seqno < b.seqno then 1
    else a.kind - b.kind
  }

  // An encoded internal key, as the skip list of a MemTable holds it.
  type TaggedBytes = b: Bytes | |b| >= 8 witness [0, 0, 0, 0, 0, 0, 0, 0]
  datatype InternalKey = InternalKey(bytes: TaggedBytes)

  function Encode(user: Bytes, seqno: nat, kind: Byte): InternalKey {
    InternalKey(PutInternalKey(user, seqno, kind))
  }

  function Parts(k: InternalKey): Parsed {
    ParseInternalKey(k.bytes).value
  }

  function InternalOrder(user: (Bytes, Bytes) -> int): (InternalKey, InternalKey) -> int {
    (a: InternalKey, b: InternalKey) => CompareParsed(user, Parts(a), Parts(b))
  }

  lemma InternalOrderIsTheComparator(user: (Bytes, Bytes) -> int, a: InternalKey, b: InternalKey)
    ensures InternalOrder(user)(a, b) == CompareInternal(user, a.bytes, b.bytes)
  {
  }

  lemma PartsOfEncode(user: Bytes, seqno: nat, kind: Byte)
    ensures Parts(Encode(user, seqno, kind)) == Parsed(user, seqno % SEQ_SPAN, kind)
  {
    InternalKeyRoundTrip(user, seqno, kind);
  }

  lemma EncodeOfParts(k: InternalKey)
    ensures Parts(k).seqno < SEQ_SPAN && Encode(Parts(k).user, Parts(k).seqno, Parts(k).kind) == k
  {
    InternalKeyIsOnto(k.bytes);
  }

  lemma ParsedChains(user: (Bytes, Bytes) -> int, a: Parsed, b: Parsed, c: Parsed)
    requires TotalPreorder(user) && CompareParsed(user, a, b) <= 0 && CompareParsed(user, b, c) <= 0
    ensures CompareParsed(user, a, c) <= 0
  {
    var x, y, z := a.user, b.user, c.user;
    assert Chained(x, y, z);
    if user(x, y) < 0 || user(y, z) < 0 {
      StrictStep(user, x, y, z);
    } else {
      SameClass(user, x, y, z);
    }
  }

  // On encodings the comparator is a total order, and only equal encodings compare equal.
  lemma InternalOrderIsTotal(user: (Bytes, Bytes) -> int)
    requires TotalOrder(user)
    ensures TotalPreorder(InternalOrder(user))
    ensures forall a, b :: InternalOrder(user)(a, b) == 0 <==> a == b
  {
    forall a, b
      ensures InternalOrder(user)(a, b) < 0 <==> InternalOrder(user)(b, a) > 0
      ensures InternalOrder(user)(a, b) == 0 <==> a == b
    {
      EncodeOfParts(a);
      EncodeOfParts(b);
    }
    forall a, b, c | InternalOrder(user)(a, b) <= 0 && InternalOrder(user)(b, c) <= 0
      ensures InternalOrder(user)(a, c) <= 0
    {
      ParsedChains(user, Parts(a), Parts(b), Parts(c));
    }
  }

  // Shorter strings break the order: compared bytewise with the rest, they close a cycle.
  lemma ShortKeysBreakTheOrder()
    ensures !TotalPreorder((a: Bytes, b: Bytes) => CompareInternal(Bytewise, a, b))
  {
    var newer, older, short: Bytes := PutInternalKey([], 2, VALUE), PutInternalKey([], 1, VALUE), [1, 1, 255];
    InternalKeyRoundTrip([], 2, VALUE);
    InternalKeyRoundTrip([], 1, VALUE);
    ShortCycle(newer, older, short);
    var cmp := (a: Bytes, b: Bytes) => CompareInternal(Bytewise, a, b);
    assert cmp(newer, older) == -1 && cmp(older, short) < 0 && cmp(short, newer) < 0;
    if TotalPreorder(cmp) {
      StrictStep(cmp, newer, older, short);
    }
  }

  lemma ShortCycle(newer: Bytes, older: Bytes, short: Bytes)
    requires newer == PutInternalKey([], 2, VALUE) && older == PutInternalKey([], 1, VALUE) && short == [1, 1, 255]
    ensures Bytewise(older, short) < 0 && Bytewise(short, newer) < 0
  {
    assert PutFixed(513, 8) == [1] + PutFixed(2, 7) && PutFixed(2, 7) == [2] + PutFixed(0, 6);
    assert PutFixed(257, 8) == [1] + PutFixed(1, 7) && PutFixed(1, 7) == [1] + PutFixed(0, 6);
    assert PutFixed(0, 6) == [0] + PutFixed(0, 5);
    assert newer == [1] + ([2] + PutFixed(0, 6));
    assert older == [1] + ([1] + ([0] + PutFixed(0, 5)));
    assert newer[1..] == [2] + PutFixed(0, 6) && short[1..] == [1, 255] && short[1..][1..] == [255];
    assert older[1..] == [1] + ([0] + PutFixed(0, 5)) && older[1..][1..] == [0] + PutFixed(0, 5);
  }
}
