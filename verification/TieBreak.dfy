/** A MemTable written to a sorted table: what changes for a reader. */
module TieBreak {
  import opened Types
  import opened SkipLists
  import opened Coding
  import opened Compaction
  import opened Lsm
  import opened SsReaders
  import Mem = MemTables

  // The table holds the entries of the MemTable, in the order of their bytes.
  ghost predicate WrittenFrom(s: Mem.Table, t: Table) {
    && Sorted(Bytewise, t)
    && (forall e | e in s :: RecOf(e) in t)
    && (forall r | r in t :: exists e :: e in s && RecOf(e) == r)
  }

  function RecOf(e: (InternalKey, Mem.Entry)): Rec {
    Rec(e.0.bytes, e.1.value)
  }

  function ResultFor(answer: Option<Payload>): GetResult {
    match answer
    case None => Missing
    case Some(Delete) => Deleted
    case Some(Put(v)) => Found(v.data)
  }

  // A value's bytes come before those of the tombstone at its sequence.
  lemma ValueSortsFirst(user: Bytes, seqno: nat)
    ensures Bytewise(PutInternalKey(user, seqno, VALUE), PutInternalKey(user, seqno, DELETION)) < 0
  {
    hide Bytewise, PutFixed;
    var a, b := (seqno * 256 + VALUE) % WORD_SPAN, (seqno * 256 + DELETION) % WORD_SPAN;
    TagParts(seqno, VALUE);
    TagParts(seqno, DELETION);
    FirstBytesDecide(a, b, 8);
    SamePrefix(user, PutFixed(a, 8), PutFixed(b, 8));
  }

  lemma FirstBytesDecide(v: nat, w: nat, n: nat)
    requires v % 256 < w % 256 && n >= 1
    ensures Bytewise(PutFixed(v, n), PutFixed(w, n)) < 0
  {
  }

  lemma RecordShows(s: Mem.Table, t: Table, key: Bytes, snapshot: nat, e: (InternalKey, Mem.Entry)) returns (i: nat)
    requires WrittenFrom(s, t) && e in s && Mem.Matches(e, key, snapshot)
    ensures i < |t| && t[i] == RecOf(e) && Visible(Bytewise, t[i], key, snapshot) && SeqOf(t[i]) == Parts(e.0).seqno
  {
    hide Sorted;
    BytewiseFlips(key, key);
    assert RecOf(e) in t;
    i :| i < |t| && t[i] == RecOf(e);
  }

  lemma RecordComesFrom(s: Mem.Table, t: Table, key: Bytes, snapshot: nat, r: Rec) returns (e: (InternalKey, Mem.Entry))
    requires WrittenFrom(s, t) && r in t && Visible(Bytewise, r, key, snapshot)
    ensures e in s && RecOf(e) == r && Mem.Matches(e, key, snapshot) && SeqOf(r) == Parts(e.0).seqno
  {
    hide Sorted, Bytewise;
    e :| e in s && RecOf(e) == r;
    BytewiseFlips(Parts(e.0).user, key);
  }

  // No version newer than the one found.
  lemma NoneNewer(s: Mem.Table, m: Lsm, t: Table, key: Bytes, snapshot: nat, i: nat, c: SeqNo)
    requires WrittenFrom(s, t) && Mem.Models(s, m) && NewestAt(Bytewise, t, key, snapshot, i)
    requires c > SeqOf(t[i]) && (snapshot == 0 || c <= snapshot)
    ensures (Key(key), c) !in m.cells
  {
    hide WrittenFrom, Visible, SeqOf;
    if (Key(key), c) in m.cells {
      var n := Mem.CellHasEntry(s, m, key, c);
      var j := RecordShows(s, t, key, snapshot, s[n]);
    }
  }

  // Of the two kinds at the newest sequence the tombstone is the one found.
  lemma FoundKind(s: Mem.Table, m: Lsm, t: Table, key: Bytes, snapshot: nat, i: nat, e: (InternalKey, Mem.Entry))
    requires WrittenFrom(s, t) && Mem.Models(s, m) && (forall x | x in s :: Mem.GoodEntry(x))
    requires NewestAt(Bytewise, t, key, snapshot, i) && e in s && RecOf(e) == t[i] && Mem.Matches(e, key, snapshot)
    requires SeqOf(t[i]) == Parts(e.0).seqno
    ensures (Key(key), Parts(e.0).seqno) in m.tombs <==> Parts(e.0).kind == DELETION
  {
    hide Bytewise, Visible, SeqOf;
    var c := Parts(e.0).seqno;
    if Parts(e.0).kind == DELETION {
      assert Mem.IsVersion(e, key, c) && KindPayload(Parts(e.0).kind, e.1.value) == Delete;
    } else if (Key(key), c) in m.tombs {
      var d :| d in s && Mem.IsVersion(d, key, c) && KindPayload(Parts(d.0).kind, d.1.value) == Delete;
      var j := RecordShows(s, t, key, snapshot, d);
      TombstoneIsLater(t, i, j, e, d);
      assert false;
    }
  }

  lemma TombstoneIsLater(t: Table, i: nat, j: nat, e: (InternalKey, Mem.Entry), d: (InternalKey, Mem.Entry))
    requires Sorted(Bytewise, t) && i < |t| && j < |t| && t[i] == RecOf(e) && t[j] == RecOf(d)
    requires Parts(e.0).user == Parts(d.0).user && Parts(e.0).seqno == Parts(d.0).seqno
    requires Parts(e.0).kind == VALUE && Parts(d.0).kind == DELETION
    ensures i < j
  {
    hide Bytewise;
    EncodeOfParts(e.0);
    EncodeOfParts(d.0);
    ValueSortsFirst(Parts(e.0).user, Parts(e.0).seqno);
    BytewiseFlips(t[i].key, t[j].key);
    BytewiseFlips(t[i].key, t[i].key);
  }

  // Looked up in the sorted table a key answers as in the MemTable, but for a value and a
  // tombstone at its newest sequence: there the MemTable finds the value, the table the tombstone.
  lemma TableAnswersWithTombstones(s: Mem.Table, m: Lsm, t: Table, key: Bytes, snapshot: nat)
    requires WrittenFrom(s, t) && Mem.Models(s, m) && forall e | e in s :: Mem.GoodEntry(e)
    ensures ResultOf(Best(Bytewise, t, key, snapshot)) == ResultFor(Read(m, Key(key), snapshot, TombstoneWins))
  {
    hide WrittenFrom, Visible, Best, Bytewise;
    BestIsNewest(Bytewise, t, key, snapshot);
    var bound := if snapshot == 0 then m.top else snapshot;
    match Best(Bytewise, t, key, snapshot)
    case None =>
      forall c: SeqNo | c <= bound
        ensures (Key(key), c) !in m.cells
      {
        if (Key(key), c) in m.cells {
          var n := Mem.CellHasEntry(s, m, key, c);
          var j := RecordShows(s, t, key, snapshot, s[n]);
        }
      }
      NewestIsNone(m.cells, Key(key), bound);
    case Some(r) =>
      var i: nat :| NewestAt(Bytewise, t, key, snapshot, i) && t[i] == r;
      FoundAnswers(s, m, t, key, snapshot, i);
  }

  lemma FoundAnswers(s: Mem.Table, m: Lsm, t: Table, key: Bytes, snapshot: nat, i: nat)
    requires WrittenFrom(s, t) && Mem.Models(s, m) && (forall e | e in s :: Mem.GoodEntry(e))
    requires NewestAt(Bytewise, t, key, snapshot, i)
    ensures ResultOf(Some(t[i])) == ResultFor(Read(m, Key(key), snapshot, TombstoneWins))
  {
    hide WrittenFrom, Bytewise;
    var bound := if snapshot == 0 then m.top else snapshot;
    var e := RecordComesFrom(s, t, key, snapshot, t[i]);
    var c := Parts(e.0).seqno;
    assert Mem.EntryShows(e, m) && Mem.GoodEntry(e);
    forall c': SeqNo | c < c' <= bound
      ensures (Key(key), c') !in m.cells
    {
      NoneNewer(s, m, t, key, snapshot, i, c');
    }
    NewestIs(m.cells, Key(key), bound, c);
    FoundKind(s, m, t, key, snapshot, i, e);
  }
}
