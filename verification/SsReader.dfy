/** Point lookups in a sorted table: range check, filter, block search, and a scan of one block. */
module SsReaders {
  import opened Types
  import opened SkipLists
  import opened Coding
  import opened Compaction
  import opened SsTables
  import opened SsFields
  import opened SsIterators
  import opened BloomFilters
  import opened SsWriters
  import opened SsOpening

  // Trap is the division by zero of a filter without bits.
  datatype GetResult = NotOpened | Failed | Trap | Missing | Deleted | Found(value: Bytes)

  // ---- the answer of a linear scan ----

  predicate Visible(cmp: KeyOrder, r: Rec, key: Bytes, snapshot: nat) {
    var p := ParseInternalKey(r.key);
    p.Some? && cmp(p.value.user, key) == 0 && (snapshot == 0 || p.value.seqno <= snapshot)
  }

  // The newest visible version; of equal ones the later.
  function Best(cmp: KeyOrder, t: Table, key: Bytes, snapshot: nat): Option<Rec> {
    if t == [] then None
    else
      var before, r := Best(cmp, t[..|t| - 1], key, snapshot), t[|t| - 1];
      if Visible(cmp, r, key, snapshot) && (before.None? || SeqOf(r) >= SeqOf(before.value)) then Some(r) else before
  }

  // Record i is visible, none is newer, and none behind it as new.
  ghost predicate NewestAt(cmp: KeyOrder, t: Table, key: Bytes, snapshot: nat, i: nat) {
    && i < |t| && Visible(cmp, t[i], key, snapshot)
    && forall j | 0 <= j < |t| && Visible(cmp, t[j], key, snapshot) ::
         SeqOf(t[j]) < SeqOf(t[i]) || (j <= i && SeqOf(t[j]) == SeqOf(t[i]))
  }

  lemma {:induction false} BestIsNewest(cmp: KeyOrder, t: Table, key: Bytes, snapshot: nat)
    ensures match Best(cmp, t, key, snapshot)
            case None => forall i | 0 <= i < |t| :: !Visible(cmp, t[i], key, snapshot)
            case Some(r) => exists i: nat :: NewestAt(cmp, t, key, snapshot, i) && t[i] == r
  {
    hide Visible, SeqOf;
    if t != [] {
      var n, most := |t| - 1, t[..|t| - 1];
      BestIsNewest(cmp, most, key, snapshot);
      var before := Best(cmp, most, key, snapshot);
      if before.Some? {
        var i: nat :| NewestAt(cmp, most, key, snapshot, i) && most[i] == before.value;
        OneMoreVersion(cmp, t, key, snapshot, i);
      } else if Visible(cmp, t[n], key, snapshot) {
        forall j | 0 <= j < n
          ensures !Visible(cmp, t[j], key, snapshot)
        {
          assert most[j] == t[j];
        }
        assert NewestAt(cmp, t, key, snapshot, n);
      } else {
        assert forall j | 0 <= j < n :: most[j] == t[j];
      }
    }
  }

  lemma OneMoreVersion(cmp: KeyOrder, t: Table, key: Bytes, snapshot: nat, i: nat)
    requires t != [] && NewestAt(cmp, t[..|t| - 1], key, snapshot, i)
    ensures NewestAt(cmp, t, key, snapshot,
                     if Visible(cmp, t[|t| - 1], key, snapshot) && SeqOf(t[|t| - 1]) >= SeqOf(t[i]) then |t| - 1 else i)
  {
    hide Visible, SeqOf;
    var n, most := |t| - 1, t[..|t| - 1];
    forall j | 0 <= j < n && Visible(cmp, t[j], key, snapshot)
      ensures SeqOf(t[j]) < SeqOf(t[i]) || (j <= i && SeqOf(t[j]) == SeqOf(t[i]))
    {
      assert most[j] == t[j];
    }
  }

  function Better(a: Option<Rec>, b: Option<Rec>): Option<Rec> {
    if b.None? || (a.Some? && SeqOf(a.value) > SeqOf(b.value)) then a else b
  }

  lemma {:induction false} BestOfTwo(cmp: KeyOrder, a: Table, b: Table, key: Bytes, snapshot: nat)
    ensures Best(cmp, a + b, key, snapshot) == Better(Best(cmp, a, key, snapshot), Best(cmp, b, key, snapshot))
  {
    hide Visible, SeqOf;
    if b == [] {
      assert a + b == a;
    } else {
      var n := |b| - 1;
      BestOfTwo(cmp, a, b[..n], key, snapshot);
      assert (a + b)[..|a + b| - 1] == a + b[..n] && (a + b)[|a + b| - 1] == b[n];
    }
  }

  lemma {:induction false} NoneVisible(cmp: KeyOrder, t: Table, key: Bytes, snapshot: nat)
    requires forall i | 0 <= i < |t| :: !Visible(cmp, t[i], key, snapshot)
    ensures Best(cmp, t, key, snapshot) == None
  {
    if t != [] {
      NoneVisible(cmp, t[..|t| - 1], key, snapshot);
    }
  }

  function ResultOf(best: Option<Rec>): GetResult {
    match best
    case None => Missing
    case Some(r) =>
      var p := ParseInternalKey(r.key);
      if p.Some? && p.value.kind == DELETION then Deleted else Found(r.value)
  }

  // ---- the one block looked at ----

  // The last block whose first user key is not after the key; -1 for none.
  function BlockFor(cmp: KeyOrder, blocks: seq<Table>, key: Bytes): (i: int)
    ensures -1 <= i < |blocks|
  {
    if blocks == [] then -1
    else
      var n := |blocks| - 1;
      if blocks[n] != [] && cmp(UserOf(blocks[n][0].key), key) <= 0 then n else BlockFor(cmp, blocks[..n], key)
  }

  function Looked(cmp: KeyOrder, blocks: seq<Table>, key: Bytes, snapshot: nat): Option<Rec> {
    var i := BlockFor(cmp, blocks, key);
    if i < 0 then None else Best(cmp, blocks[i], key, snapshot)
  }

  lemma {:induction false} BlockForIs(cmp: KeyOrder, blocks: seq<Table>, key: Bytes, i: int)
    requires [] !in blocks && -1 <= i < |blocks|
    requires i >= 0 ==> blocks[i] != [] && cmp(UserOf(blocks[i][0].key), key) <= 0
    requires forall j | i < j < |blocks| :: blocks[j] != [] && cmp(UserOf(blocks[j][0].key), key) > 0
    ensures BlockFor(cmp, blocks, key) == i
  {
    if i < |blocks| - 1 {
      BlockForIs(cmp, blocks[..|blocks| - 1], key, i);
    }
  }

  lemma {:induction false} BlockForSplits(cmp: KeyOrder, blocks: seq<Table>, key: Bytes)
    requires [] !in blocks
    ensures var i := BlockFor(cmp, blocks, key);
            forall j | i < j < |blocks| :: blocks[j] != [] && cmp(UserOf(blocks[j][0].key), key) > 0
  {
    if blocks != [] {
      var n := |blocks| - 1;
      assert blocks[n] in blocks;
      BlockForSplits(cmp, blocks[..n], key);
      assert forall j | 0 <= j < n :: blocks[..n][j] == blocks[j];
    }
  }

  // A visible record has the key itself as its user key.
  lemma VisibleUser(cmp: KeyOrder, r: Rec, key: Bytes, snapshot: nat)
    requires TotalOrder(cmp) && Visible(cmp, r, key, snapshot)
    ensures UserOf(r.key) == key
  {
  }

  lemma TailOfConcat(blocks: seq<Table>, i: nat)
    requires i <= |blocks|
    ensures |Concat(blocks[..i])| <= |Concat(blocks)|
    ensures Concat(blocks) == Concat(blocks[..i]) + Concat(blocks)[|Concat(blocks[..i])|..]
    decreases |blocks| - i
  {
    if i == |blocks| {
      assert blocks[..i] == blocks;
    } else {
      TailOfConcat(blocks, i + 1);
      assert blocks[..i + 1][..i] == blocks[..i];
    }
  }

  // Behind the block looked at there is no version of the key.
  lemma NothingBehind(cmp: KeyOrder, blocks: seq<Table>, key: Bytes, snapshot: nat, i: nat)
    requires TotalOrder(cmp) && [] !in blocks && UsersOrdered(cmp, Concat(blocks)) && i < |blocks|
    requires cmp(UserOf(blocks[i][0].key), key) > 0
    ensures Best(cmp, Concat(blocks), key, snapshot) == Best(cmp, Concat(blocks[..i]), key, snapshot)
  {
    hide Concat, UserOf, Visible, Best;
    var all, start := Concat(blocks), |Concat(blocks[..i])|;
    FirstKeys(blocks, i);
    TailOfConcat(blocks, i);
    var tail := all[start..];
    forall j | 0 <= j < |tail|
      ensures !Visible(cmp, tail[j], key, snapshot)
    {
      assert tail[j] == all[start + j] && tail[0] == all[start];
      if Visible(cmp, tail[j], key, snapshot) {
        VisibleUser(cmp, tail[j], key, snapshot);
      }
    }
    NoneVisible(cmp, tail, key, snapshot);
    BestOfTwo(cmp, Concat(blocks[..i]), tail, key, snapshot);
  }

  // The block looked at decides the scan exactly if no earlier block holds a newer visible
  // version: versions of one key may straddle two blocks, and only the last is read.
  lemma BlockDecides(cmp: KeyOrder, blocks: seq<Table>, key: Bytes, snapshot: nat)
    requires TotalOrder(cmp) && [] !in blocks && UsersOrdered(cmp, Concat(blocks))
    ensures var i := BlockFor(cmp, blocks, key);
            if i < 0 then Best(cmp, Concat(blocks), key, snapshot) == None == Looked(cmp, blocks, key, snapshot)
            else
              var before, here := Best(cmp, Concat(blocks[..i]), key, snapshot), Best(cmp, blocks[i], key, snapshot);
              Best(cmp, Concat(blocks), key, snapshot) == Looked(cmp, blocks, key, snapshot) <==>
                before.None? || (here.Some? && SeqOf(before.value) <= SeqOf(here.value))
  {
    hide UserOf, Visible, Concat, Best, SeqOf;
    var i := BlockFor(cmp, blocks, key);
    BlockForSplits(cmp, blocks, key);
    if i + 1 < |blocks| {
      NothingBehind(cmp, blocks, key, snapshot, i + 1);
    } else {
      assert blocks[..i + 1] == blocks;
    }
    if i < 0 {
      NoBlocks(blocks, cmp, key, snapshot);
    } else {
      OneMoreBlock(blocks, i);
      BestOfTwo(cmp, Concat(blocks[..i]), blocks[i], key, snapshot);
    }
  }

  lemma NoBlocks(blocks: seq<Table>, cmp: KeyOrder, key: Bytes, snapshot: nat)
    ensures Best(cmp, Concat(blocks[..0]), key, snapshot) == None
  {
  }

  lemma OneMoreBlock(blocks: seq<Table>, i: nat)
    requires i < |blocks|
    ensures Concat(blocks[..i + 1]) == Concat(blocks[..i]) + blocks[i]
  {
    assert blocks[..i + 1][..i] == blocks[..i];
  }

  // No version of the key in an earlier block: the lookup is the scan.
  lemma LookupIsScan(cmp: KeyOrder, blocks: seq<Table>, key: Bytes, snapshot: nat)
    requires TotalOrder(cmp) && [] !in blocks && UsersOrdered(cmp, Concat(blocks))
    requires var i := BlockFor(cmp, blocks, key);
             i > 0 ==> forall j | 0 <= j < |Concat(blocks[..i])| :: UserOf(Concat(blocks[..i])[j].key) != key
    ensures Looked(cmp, blocks, key, snapshot) == Best(cmp, Concat(blocks), key, snapshot)
  {
    hide UserOf, Visible, Best, SeqOf;
    var i := BlockFor(cmp, blocks, key);
    BlockDecides(cmp, blocks, key, snapshot);
    if i > 0 {
      var before := Concat(blocks[..i]);
      forall j | 0 <= j < |before|
        ensures !Visible(cmp, before[j], key, snapshot)
      {
        if Visible(cmp, before[j], key, snapshot) {
          VisibleUser(cmp, before[j], key, snapshot);
        }
      }
      NoneVisible(cmp, before, key, snapshot);
    } else if i == 0 {
      NoBlocks(blocks, cmp, key, snapshot);
    }
  }

  // A straddling key whose older version sorts into the later block reads as that version: the
  // tag's low bytes come first, so sequence 256 sorts before sequence 1. These are the blocks for
  // every block size that the first record alone reaches.
  lemma StraddlingKeyReadsOld(key: Bytes, older: Bytes, newer: Bytes)
    ensures var first, second := Rec(PutInternalKey(key, 256, VALUE), newer), Rec(PutInternalKey(key, 1, VALUE), older);
            && Bytewise(first.key, second.key) < 0
            && Best(Bytewise, Concat([[first], [second]]), key, 0) == Some(first)
            && Looked(Bytewise, [[first], [second]], key, 0) == Some(second)
            && forall limit: nat | limit <= |EncodeBlock([first])| :: CutAt(limit, [[first], [second]])
  {
    hide PutInternalKey, ParseInternalKey, UserOf, Bytewise, EncodeBlock;
    var first, second := Rec(PutInternalKey(key, 256, VALUE), newer), Rec(PutInternalKey(key, 1, VALUE), older);
    InternalKeyRoundTrip(key, 256, VALUE);
    InternalKeyRoundTrip(key, 1, VALUE);
    TagOrder(key);
    BytewiseFlips(key, key);
    var blocks := [[first], [second]];
    UserOfInternal(key, 256, VALUE);
    UserOfInternal(key, 1, VALUE);
    BestOfOne(first, key);
    BestOfOne(second, key);
    assert blocks[..1] == [[first]] && [[first]][..0] == [];
    assert Concat([[first]]) == [first];
    assert Concat(blocks) == [first] + [second];
    BestOfTwo(Bytewise, [first], [second], key, 0);
  }

  lemma BestOfOne(r: Rec, key: Bytes)
    requires Visible(Bytewise, r, key, 0)
    ensures Best(Bytewise, [r], key, 0) == Some(r)
  {
    hide Visible, Bytewise;
    assert [r][..0] == [];
  }

  lemma UserOfInternal(user: Bytes, seqno: nat, kind: Byte)
    ensures UserOf(PutInternalKey(user, seqno, kind)) == user
  {
  }

  lemma TagOrder(key: Bytes)
    ensures Bytewise(PutInternalKey(key, 256, VALUE), PutInternalKey(key, 1, VALUE)) < 0
  {
    hide PutFixed, Bytewise;
    TagsCompare(65537, 257, 8);
    SamePrefix(key, PutFixed(65537, 8), PutFixed(257, 8));
  }

  // The type byte is the same, and the next byte decides.
  lemma TagsCompare(v: nat, w: nat, n: nat)
    requires v % 256 == w % 256 && v / 256 % 256 < w / 256 % 256 && n >= 2
    ensures Bytewise(PutFixed(v, n), PutFixed(w, n)) < 0
  {
    assert PutFixed(v, n)[1..] == PutFixed(v / 256, n - 1) && PutFixed(w, n)[1..] == PutFixed(w / 256, n - 1);
  }

  lemma {:induction false} SamePrefix(key: Bytes, a: Bytes, b: Bytes)
    ensures Bytewise(key + a, key + b) == Bytewise(a, b)
  {
    if key == [] {
      assert key + a == a && key + b == b;
    } else {
      SamePrefix(key[1..], a, b);
      assert (key + a)[1..] == key[1..] + a && (key + b)[1..] == key[1..] + b;
    }
  }

  // ---- the reader ----

  // The user keys of the index, in order, not strictly.
  predicate IndexOrdered(cmp: KeyOrder, index: seq<IndexEntry>) {
    forall i, j | 0 <= i <= j < |index| :: cmp(UserOf(index[i].key), UserOf(index[j].key)) <= 0
  }

  // The last entry whose user key is not after the key, if the keys are in order.
  method FindIndexEntry(cmp: KeyOrder, index: seq<IndexEntry>, key: Bytes) returns (found: int)
    ensures -1 <= found < |index|
    ensures TotalOrder(cmp) && IndexOrdered(cmp, index) ==>
              && (forall i | 0 <= i <= found :: cmp(UserOf(index[i].key), key) <= 0)
              && (forall i | found < i < |index| :: cmp(UserOf(index[i].key), key) > 0)
  {
    hide UserOf;
    var left, right := 0, |index| - 1;
    ghost var ordered := TotalOrder(cmp) && IndexOrdered(cmp, index);
    found := -1;
    while left <= right
      invariant 0 <= left <= |index| && -1 <= right < |index| && left <= right + 1 && found == left - 1
      invariant ordered ==> forall i | 0 <= i < left :: cmp(UserOf(index[i].key), key) <= 0
      invariant ordered ==> forall i | right < i < |index| :: cmp(UserOf(index[i].key), key) > 0
      decreases right - left
    {
      var mid := left + (right - left) / 2;
      var c := cmp(UserOf(index[mid].key), key);
      if ordered {
        Halves(cmp, index, key, mid);
      }
      if c <= 0 {
        found, left := mid, mid + 1;
      } else {
        right := mid - 1;
      }
    }
  }

  lemma Halves(cmp: KeyOrder, index: seq<IndexEntry>, key: Bytes, mid: nat)
    requires TotalOrder(cmp) && IndexOrdered(cmp, index) && mid < |index|
    ensures cmp(UserOf(index[mid].key), key) <= 0 ==> forall i | 0 <= i <= mid :: cmp(UserOf(index[i].key), key) <= 0
    ensures cmp(UserOf(index[mid].key), key) > 0 ==> forall i | mid <= i < |index| :: cmp(UserOf(index[i].key), key) > 0
  {
    hide UserOf;
    forall i | 0 <= i < |index|
      ensures i <= mid && cmp(UserOf(index[mid].key), key) <= 0 ==> cmp(UserOf(index[i].key), key) <= 0
      ensures i >= mid && cmp(UserOf(index[mid].key), key) > 0 ==> cmp(UserOf(index[i].key), key) > 0
    {
      assert Chained(UserOf(index[i].key), UserOf(index[mid].key), key);
      assert Chained(UserOf(index[mid].key), UserOf(index[i].key), key);
    }
  }

  // What the scan of a block remembers of the best version so far.
  datatype Held = Held(found: bool, seqno: nat, value: Bytes, deleted: bool)

  ghost predicate Holds(h: Held, best: Option<Rec>) {
    match best
    case None => !h.found && h.seqno == 0
    case Some(r) =>
      var p := ParseInternalKey(r.key);
      h.found && p.Some? && h.seqno == p.value.seqno && h.value == r.value && (h.deleted <==> p.value.kind == DELETION)
  }

  // One record of the scan: what is held behind it, and whether it is past the key.
  function Weigh(cmp: KeyOrder, h: Held, r: Rec, key: Bytes, snapshot: nat): (Held, bool) {
    match ParseInternalKey(r.key)
    case None => (h, false)
    case Some(p) =>
      var c := cmp(p.user, key);
      if c == 0 && (snapshot == 0 || p.seqno <= snapshot) && p.seqno >= h.seqno
      then (Held(true, p.seqno, r.value, p.kind == DELETION), false)
      else (h, c > 0)
  }

  lemma WeighIsBest(cmp: KeyOrder, t: Table, n: nat, h: Held, key: Bytes, snapshot: nat)
    requires n < |t| && Holds(h, Best(cmp, t[..n], key, snapshot))
    ensures Holds(Weigh(cmp, h, t[n], key, snapshot).0, Best(cmp, t[..n + 1], key, snapshot))
  {
    hide ParseInternalKey;
    assert t[..n + 1][..n] == t[..n];
  }

  // Past the key there is no version of it.
  lemma PastTheKey(cmp: KeyOrder, t: Table, n: nat, h: Held, key: Bytes, snapshot: nat)
    requires TotalOrder(cmp) && UsersOrdered(cmp, t) && n < |t| && Weigh(cmp, h, t[n], key, snapshot).1
    ensures Best(cmp, t, key, snapshot) == Best(cmp, t[..n + 1], key, snapshot)
  {
    hide Best;
    var tail := t[n + 1..];
    forall j | 0 <= j < |tail|
      ensures !Visible(cmp, tail[j], key, snapshot)
    {
      PastOne(cmp, t, n, n + 1 + j, h, key, snapshot);
    }
    NoneVisible(cmp, tail, key, snapshot);
    BestOfTwo(cmp, t[..n + 1], tail, key, snapshot);
    assert t == t[..n + 1] + tail;
  }

  lemma PastOne(cmp: KeyOrder, t: Table, n: nat, j: nat, h: Held, key: Bytes, snapshot: nat)
    requires TotalOrder(cmp) && UsersOrdered(cmp, t) && n <= j < |t| && Weigh(cmp, h, t[n], key, snapshot).1
    ensures !Visible(cmp, t[j], key, snapshot)
  {
    assert UserOf(t[n].key) == ParseInternalKey(t[n].key).value.user;
    assert cmp(UserOf(t[n].key), UserOf(t[j].key)) <= 0;
    if Visible(cmp, t[j], key, snapshot) {
      VisibleUser(cmp, t[j], key, snapshot);
    }
  }

  // Reads the block until it ends or goes past the key.
  method ScanBlock(cmp: KeyOrder, data: Bytes, key: Bytes, snapshot: nat, ghost rs: Table) returns (ok: bool, h: Held)
    ensures TotalOrder(cmp) && data == EncodeBlock(rs) && UsersOrdered(cmp, rs) && (forall i | 0 <= i < |rs| :: Fits(rs[i])) ==>
              ok && Holds(h, Best(cmp, rs, key, snapshot))
  {
    hide EncodeBlock, ParseEntry, Weigh, Holds, Fits, Best;
    ghost var sound := TotalOrder(cmp) && data == EncodeBlock(rs) && UsersOrdered(cmp, rs) && forall i | 0 <= i < |rs| :: Fits(rs[i]);
    var offset: nat := 0;
    ghost var n: nat := 0;
    h := Held(false, 0, [], false);
    StartOfScan(cmp, rs, key, snapshot);
    while offset < |data|
      invariant offset <= |data|
      invariant sound ==> n <= |rs| && offset == |EncodeBlock(rs[..n])| && Holds(h, Best(cmp, rs[..n], key, snapshot))
      decreases |data| - offset
    {
      if sound {
        MoreToParse(rs, n);
        ParsesEntry(rs, n);
        WeighIsBest(cmp, rs, n, h, key, snapshot);
      }
      match ParseEntry(data[offset..])
      case None =>
        return false, h;
      case Some((r, c)) =>
        ParseTakesBytes(data[offset..]);
        ghost var was := h;
        var w := Weigh(cmp, h, r, key, snapshot);
        h := w.0;
        if w.1 {
          if sound {
            PastTheKey(cmp, rs, n, was, key, snapshot);
          }
          return true, h;
        }
        offset, n := offset + c, n + 1;
    }
    if sound {
      AllParsed(rs, n);
      assert rs[..|rs|] == rs;
    }
    ok := true;
  }

  lemma StartOfScan(cmp: KeyOrder, rs: Table, key: Bytes, snapshot: nat)
    ensures EncodeBlock(rs[..0]) == [] && Holds(Held(false, 0, [], false), Best(cmp, rs[..0], key, snapshot))
  {
  }

  lemma MoreToParse(rs: Table, n: nat)
    requires n <= |rs| && |EncodeBlock(rs[..n])| < |EncodeBlock(rs)|
    ensures n < |rs|
  {
    hide EncodeBlock;
    assert rs[..|rs|] == rs;
  }

  lemma AllParsed(rs: Table, n: nat)
    requires n <= |rs| && |EncodeBlock(rs[..n])| >= |EncodeBlock(rs)|
    ensures n == |rs|
  {
    hide EncodeBlock;
    if n < |rs| {
      EntryIsThere(rs, n);
    }
  }

  // ---- lookups ----

  predicate KeyInRange(cmp: KeyOrder, m: Meta, key: Bytes) {
    m.smallest == [] || m.largest == [] || (cmp(key, m.smallest) >= 0 && cmp(key, m.largest) <= 0)
  }

  // The table behind a reader: these blocks, in user-key order, with their index, range and filter.
  ghost predicate Behind(cmp: KeyOrder, crc: Checksum, blocks: seq<Table>, file: Bytes, index: seq<IndexEntry>, m: Meta) {
    && TotalOrder(cmp) && HoldsBlocks(crc, blocks, file) && index == SsTables.IndexOf(crc, blocks) && AllFit(blocks)
    && UsersOrdered(cmp, Concat(blocks)) && RangeAgrees(cmp, index, m)
    && (exists empty: Meta :: SummaryOf(empty, Concat(blocks), m))
  }

  ghost predicate SummaryOf(empty: Meta, t: Table, m: Meta) {
    && empty.smallest == [] && empty.largest == []
    && m.smallest == Summary(empty, t).smallest && m.largest == Summary(empty, t).largest
  }

  // The range check lets every key through that has a version.
  lemma RangeKeepsPresent(cmp: KeyOrder, crc: Checksum, blocks: seq<Table>, file: Bytes, index: seq<IndexEntry>, m: Meta, i: nat)
    requires Behind(cmp, crc, blocks, file, index, m) && i < |Concat(blocks)|
    ensures KeyInRange(cmp, m, UserOf(Concat(blocks)[i].key))
  {
    hide UserOf, Summary, Blocks, SizeOf;
    var all := Concat(blocks);
    var empty :| SummaryOf(empty, all, m);
    SummaryRange(empty, all);
    FirstKeys(blocks, 0);
    var key := UserOf(all[i].key);
    assert cmp(UserOf(all[0].key), key) <= 0 && cmp(key, m.largest) <= 0;
    if m.smallest != [] && m.largest != [] {
      assert UserOf(index[0].key) == UserOf(all[0].key);
      assert Chained(m.smallest, UserOf(all[0].key), key);
    }
  }

  // No record with this user key: nothing to find, in the table or in the block looked at.
  lemma AbsentKey(cmp: KeyOrder, crc: Checksum, blocks: seq<Table>, key: Bytes, snapshot: nat)
    requires TotalOrder(cmp) && [] !in blocks && UsersOrdered(cmp, Concat(blocks))
    requires forall i | 0 <= i < |Concat(blocks)| :: UserOf(Concat(blocks)[i].key) != key
    ensures Looked(cmp, blocks, key, snapshot) == None
  {
    hide UserOf, Visible, Best, Concat;
    var i := BlockFor(cmp, blocks, key);
    if i >= 0 {
      PartIsThere(blocks, i);
      var start := |Concat(blocks[..i])|;
      forall j | 0 <= j < |blocks[i]|
        ensures !Visible(cmp, blocks[i][j], key, snapshot)
      {
        assert Concat(blocks)[start..|Concat(blocks[..i + 1])|][j] == Concat(blocks)[start + j];
        if Visible(cmp, blocks[i][j], key, snapshot) {
          VisibleUser(cmp, blocks[i][j], key, snapshot);
        }
      }
      NoneVisible(cmp, blocks[i], key, snapshot);
    }
  }

  lemma IndexIsOrdered(cmp: KeyOrder, crc: Checksum, blocks: seq<Table>)
    requires [] !in blocks && UsersOrdered(cmp, Concat(blocks))
    ensures IndexOrdered(cmp, SsTables.IndexOf(crc, blocks))
  {
    hide UserOf, Concat, Blocks, SizeOf;
    var index := SsTables.IndexOf(crc, blocks);
    forall i, j | 0 <= i <= j < |index|
      ensures cmp(UserOf(index[i].key), UserOf(index[j].key)) <= 0
    {
      FirstKeys(blocks, i);
      FirstKeys(blocks, j);
      StartsAscend(blocks, i, j);
    }
  }

  lemma StartsAscend(blocks: seq<Table>, i: nat, j: nat)
    requires i <= j < |blocks|
    ensures |Concat(blocks[..i])| <= |Concat(blocks[..j])|
    decreases j - i
  {
    if i < j {
      StartsAscend(blocks, i, j - 1);
      OneMoreBlock(blocks, j - 1);
    }
  }

  // What the search finds is the block to look at.
  lemma FoundIsBlockFor(cmp: KeyOrder, crc: Checksum, blocks: seq<Table>, key: Bytes, found: int)
    requires [] !in blocks && -1 <= found < |blocks|
    requires forall i | 0 <= i <= found :: cmp(UserOf(SsTables.IndexOf(crc, blocks)[i].key), key) <= 0
    requires forall i | found < i < |blocks| :: cmp(UserOf(SsTables.IndexOf(crc, blocks)[i].key), key) > 0
    ensures BlockFor(cmp, blocks, key) == found
  {
    hide UserOf, Blocks, SizeOf;
    forall i | 0 <= i < |blocks|
      ensures blocks[i] != [] && SsTables.IndexOf(crc, blocks)[i].key == blocks[i][0].key
    {
      assert blocks[i] in blocks;
    }
    BlockForIs(cmp, blocks, key, found);
  }

  // A block of a table in user-key order is in user-key order.
  lemma BlockIsOrdered(cmp: KeyOrder, blocks: seq<Table>, i: nat)
    requires i < |blocks| && UsersOrdered(cmp, Concat(blocks))
    ensures UsersOrdered(cmp, blocks[i])
  {
    hide UserOf, Concat;
    PartIsThere(blocks, i);
    var start := |Concat(blocks[..i])|;
    forall j | 0 <= j < |blocks[i]|
      ensures start + j < |Concat(blocks)| && blocks[i][j] == Concat(blocks)[start + j]
    {
      assert Concat(blocks)[start..|Concat(blocks[..i + 1])|][j] == Concat(blocks)[start + j];
    }
  }

  class SSTableReader {
    const cmp: KeyOrder
    const crc: Checksum
    const hash: Hash
    const name: Bytes
    var isOpen: bool
    var file: Bytes
    var meta: Meta
    var index: seq<IndexEntry>
    var bloom: BloomFilterReader?

    constructor (cmp: KeyOrder, crc: Checksum, hash: Hash, name: Bytes, meta: Meta)
      ensures !isOpen && this.cmp == cmp && this.crc == crc && this.hash == hash && this.name == name
    {
      this.cmp, this.crc, this.hash, this.name, this.meta := cmp, crc, hash, name, meta;
      isOpen, file, index, bloom := false, [], [], null;
    }

    // The filter read is the one that answers.
    ghost predicate FilterIs(filter: Bytes)
      reads this, bloom
    {
      if filter == [] then bloom == null
      else
        && bloom != null && bloom.initialized && bloom.hash == hash && bloom.data == filter && bloom.Valid()
        && bloom.bitSize == DecodeFixed(filter[..8]) && bloom.count == DecodeFixed(filter[8..12])
    }

    // Fails, and stays unopened, where a part is missing or damaged.
    method Open(data: Bytes) returns (ok: bool)
      requires !isOpen
      modifies this
      ensures ok == isOpen == OpenFile(cmp, crc, name, data).Some?
      ensures ok ==> var t := OpenFile(cmp, crc, name, data).value;
                     file == data && meta == t.meta && index == t.index && FilterIs(t.filter) && (bloom != null ==> fresh(bloom))
    {
      hide ReadMeta, RangeAgrees, ReadBlock;
      file, ok, bloom := data, false, null;
      var m := ReadMeta(crc, name, data);
      if m.None? {
        return;
      }
      var footer := m.value.1;
      meta := m.value.0;
      if footer.indexSize == 0 {
        return;
      }
      var block := ReadBlock(crc, data, footer.indexOffset, footer.indexSize, INDEX_BLOCK);
      if block.None? {
        return;
      }
      var read := ReadEntries(cmp, block.value, |data|);
      if read.None? {
        return;
      }
      index := read.value;
      if index == [] || !RangeAgrees(cmp, index, meta) {
        return;
      }
      if footer.bloomSize != 0 {
        var filter := ReadBlock(crc, data, footer.bloomOffset, footer.bloomSize, BLOOM_BLOCK);
        if filter.None? {
          return;
        }
        var reader := new BloomFilterReader(hash);
        var loaded := reader.Initialize(filter.value);
        if !loaded {
          return;
        }
        bloom := reader;
      }
      isOpen, ok := true, true;
    }

    // The newest visible version in the one block that can hold the key's last versions.
    method Get(key: Bytes, snapshot: nat, ghost blocks: seq<Table>, ghost filter: Bytes) returns (r: GetResult)
      requires isOpen ==> FilterIs(filter)
      ensures !isOpen ==> r == NotOpened
      ensures isOpen && Behind(cmp, crc, blocks, file, index, meta)
              && (filter == [] || FilterOf(hash, bloom.count, bloom.bitSize, UserKeys(Concat(blocks)), filter)) ==>
                r == if KeyInRange(cmp, meta, key) && filter != [] && bloom.bitSize == 0 && bloom.count > 0 then Trap
                     else ResultOf(Looked(cmp, blocks, key, snapshot))
    {
      hide Behind, FilterOf, UserOf, Looked, EncodeBlock, Holds, Best, DecodeFixed, KeyInRange, Answer;
      ghost var sound := isOpen && Behind(cmp, crc, blocks, file, index, meta)
        && (filter == [] || FilterOf(hash, bloom.count, bloom.bitSize, UserKeys(Concat(blocks)), filter));
      if !isOpen {
        return NotOpened;
      }
      if !KeyInRange(cmp, meta, key) {
        if sound {
          OutOfRange(cmp, crc, blocks, file, index, meta, key, snapshot);
        }
        return Missing;
      }
      if bloom != null {
        var maybe := bloom.MayContain(key);
        if sound {
          Denied(cmp, crc, blocks, file, index, meta, hash, bloom.count, bloom.bitSize, filter, key, snapshot);
        }
        if maybe.None? {
          return Trap;
        }
        if !maybe.value {
          return Missing;
        }
      }
      r := Search(key, snapshot, blocks);
    }

    // Without the range and the filter.
    method Search(key: Bytes, snapshot: nat, ghost blocks: seq<Table>) returns (r: GetResult)
      ensures Behind(cmp, crc, blocks, file, index, meta) ==> r == ResultOf(Looked(cmp, blocks, key, snapshot))
    {
      hide Behind, UserOf, Looked, EncodeBlock, Holds, Best, UsersOrdered, Fits;
      var i := FindIndexEntry(cmp, index, key);
      ghost var sound := Behind(cmp, crc, blocks, file, index, meta);
      if sound {
        FoundBlock(cmp, crc, blocks, file, index, meta, key, i, snapshot);
      }
      if i < 0 {
        return Missing;
      }
      var data := ReadDataBlock(file, index[i].offset, index[i].size);
      if data.None? {
        return Failed;
      }
      ghost var rs := if sound then blocks[i] else [];
      var ok, h := ScanBlock(cmp, data.value, key, snapshot, rs);
      if !ok {
        return Failed;
      }
      r := if !h.found then Missing else if h.deleted then Deleted else Found(h.value);
      if sound {
        HeldIsResult(h, Best(cmp, rs, key, snapshot));
      }
    }
  }

  lemma HeldIsResult(h: Held, best: Option<Rec>)
    requires Holds(h, best)
    ensures ResultOf(best) == if !h.found then Missing else if h.deleted then Deleted else Found(h.value)
  {
  }

  lemma OutOfRange(cmp: KeyOrder, crc: Checksum, blocks: seq<Table>, file: Bytes, index: seq<IndexEntry>, m: Meta, key: Bytes,
                   snapshot: nat)
    requires Behind(cmp, crc, blocks, file, index, m) && !KeyInRange(cmp, m, key)
    ensures Looked(cmp, blocks, key, snapshot) == None
  {
    hide KeyInRange, UserOf, Looked, Concat;
    forall i | 0 <= i < |Concat(blocks)|
      ensures UserOf(Concat(blocks)[i].key) != key
    {
      RangeKeepsPresent(cmp, crc, blocks, file, index, m, i);
    }
    AbsentKey(cmp, crc, blocks, key, snapshot);
  }

  // What the filter denies is not there.
  lemma Denied(cmp: KeyOrder, crc: Checksum, blocks: seq<Table>, file: Bytes, index: seq<IndexEntry>, m: Meta, hash: Hash,
               count: nat, bitSize: nat, filter: Bytes, key: Bytes, snapshot: nat)
    requires Behind(cmp, crc, blocks, file, index, m) && filter != []
    requires FilterOf(hash, count, bitSize, UserKeys(Concat(blocks)), filter)
    ensures |filter| >= FILTER_HEADER
    ensures var answer := Answer(hash, count, bitSize, filter[FILTER_HEADER..], key);
            && (answer == None <==> bitSize == 0 && count > 0)
            && (answer == Some(false) ==> Looked(cmp, blocks, key, snapshot) == None)
  {
    hide UserOf, Looked, Concat, Serialized, Maybe, HoldsKeys;
    var keys := UserKeys(Concat(blocks));
    var bits, elements: nat :| IsFilter(hash, count, bitSize, keys, bits, elements, filter);
    FilterBits(bitSize, count, elements, bits);
    if key in keys {
      if bitSize > 0 {
        AddedKeyIsMaybe(hash, count, bitSize, keys, bits, key);
      }
    } else {
      forall i | 0 <= i < |Concat(blocks)|
        ensures UserOf(Concat(blocks)[i].key) != key
      {
        assert keys[i] in keys;
      }
      AbsentKey(cmp, crc, blocks, key, snapshot);
    }
  }

  lemma FilterBits(bitSize: nat, count: nat, elements: nat, bits: Bytes)
    ensures Serialized(bitSize, count, elements, bits)[FILTER_HEADER..] == bits
  {
    hide PutFixed;
  }

  // The block found holds what is looked for, and reads back.
  lemma FoundBlock(cmp: KeyOrder, crc: Checksum, blocks: seq<Table>, file: Bytes, index: seq<IndexEntry>, m: Meta, key: Bytes,
                   found: int, snapshot: nat)
    requires Behind(cmp, crc, blocks, file, index, m) && -1 <= found < |index|
    requires TotalOrder(cmp) && IndexOrdered(cmp, index) ==>
               && (forall i | 0 <= i <= found :: cmp(UserOf(index[i].key), key) <= 0)
               && (forall i | found < i < |index| :: cmp(UserOf(index[i].key), key) > 0)
    ensures |index| == |blocks| && TotalOrder(cmp)
    ensures Looked(cmp, blocks, key, snapshot) == if found < 0 then None else Best(cmp, blocks[found], key, snapshot)
    ensures found >= 0 ==>
              && ReadDataBlock(file, index[found].offset, index[found].size) == Some(EncodeBlock(blocks[found]))
              && UsersOrdered(cmp, blocks[found]) && forall j | 0 <= j < |blocks[found]| :: Fits(blocks[found][j])
  {
    hide UserOf, Concat, EncodeBlock, Best, RangeAgrees, Fits, UsersOrdered, SizeOf, Blocks;
    IndexIsOrdered(cmp, crc, blocks);
    FoundIsBlockFor(cmp, crc, blocks, key, found);
    if found >= 0 {
      BlockReadsBack(crc, blocks, file, found);
      BlockIsOrdered(cmp, blocks, found);
      assert blocks[found] in blocks;
    }
  }

  method ReadEntries(cmp: KeyOrder, content: Bytes, fileSize: nat) returns (index: Option<seq<IndexEntry>>)
    ensures index == ScanIndex(cmp, content, fileSize, [])
  {
    hide GetSlice, DecodeEntry;
    var got: seq<IndexEntry> := [];
    var input := content;
    while input != []
      invariant ScanIndex(cmp, input, fileSize, got) == ScanIndex(cmp, content, fileSize, [])
      decreases |input|
    {
      SliceTakesBytes(input);
      match GetSlice(input)
      case None => return Some(got);
      case Some((piece, c)) =>
        match DecodeEntry(piece)
        case None => return Some(got);
        case Some(e) =>
          if e.offset + e.size > fileSize || (got != [] && cmp(got[|got| - 1].key, e.key) >= 0) {
            return None;
          }
          got, input := got + [e], input[c..];
    }
    NoSlice();
    index := Some(got);
  }

  lemma SliceTakesBytes(b: Bytes)
    ensures GetSlice(b).Some? ==> 1 <= GetSlice(b).value.1 <= |b|
  {
  }
}
