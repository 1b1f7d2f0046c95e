/** The MemTable: a skip list of internal keys that answers like the versioned map of the LSM tree. */
module MemTables {
  import opened Types
  import opened SkipLists
  import opened Coding
  import opened Lsm

  datatype Entry = Entry(key: InternalKey, value: Bytes)

  type Table = seq<(InternalKey, Entry)>

  // ---- the versions a table holds ----

  predicate IsVersion(e: (InternalKey, Entry), k: Bytes, c: nat) {
    Parts(e.0).user == k && Parts(e.0).seqno == c
  }

  ghost predicate HasVersion(s: Table, k: Bytes, c: nat, p: Payload) {
    exists e :: e in s && IsVersion(e, k, c) && KindPayload(Parts(e.0).kind, e.1.value) == p
  }

  // The table stands for these versions: every cell comes from an entry, of a value and a
  // tombstone at one sequence number the value is the cell, and the tombstones are known.
  ghost predicate Models(s: Table, m: Lsm) {
    && (forall e | e in s :: EntryShows(e, m))
    && (forall k, c | (k, c) in m.cells :: c <= m.top && HasVersion(s, k.bytes, c, m.cells[(k, c)]))
    && (forall k, c: SeqNo :: (k, c) in m.tombs <==> HasVersion(s, k.bytes, c, Delete))
  }

  predicate EntryShows(e: (InternalKey, Entry), m: Lsm) {
    var p, cell := Parts(e.0), (Key(Parts(e.0).user), Parts(e.0).seqno);
    cell in m.cells && (p.kind == VALUE ==> m.cells[cell] == Put(Value(e.1.value)))
  }

  predicate GoodEntry(e: (InternalKey, Entry)) {
    e.1.key == e.0 && (Parts(e.0).kind == VALUE || Parts(e.0).kind == DELETION)
  }

  ghost predicate GoodTable(s: Table, user: (Bytes, Bytes) -> int) {
    SortedBy(s, InternalOrder(user)) && forall e | e in s :: GoodEntry(e)
  }

  // Putting an entry replaces the one with the same key, if any, and no other.
  lemma PutMembers(s: Table, user: (Bytes, Bytes) -> int, x: (InternalKey, Entry), e: (InternalKey, Entry))
    requires TotalOrder(user) && SortedBy(s, InternalOrder(user))
    ensures e in PutEntry(s, InternalOrder(user), x.0, x.1) <==> e == x || (e in s && e.0 != x.0)
  {
    var n := LowerBound(s, InternalOrder(user), x.0);
    HasKey(s, user, x.0);
    if Has(s, InternalOrder(user), x.0) {
      ReplaceMembers(s, user, x, n, e);
    } else {
      InsertMembers(s, x, n, e);
    }
  }

  lemma InsertMembers(s: Table, x: (InternalKey, Entry), n: nat, e: (InternalKey, Entry))
    requires n <= |s| && forall y | y in s :: y.0 != x.0
    ensures e in s[..n] + [x] + s[n..] <==> e == x || (e in s && e.0 != x.0)
  {
    assert s == s[..n] + s[n..];
  }

  lemma HasKey(s: Table, user: (Bytes, Bytes) -> int, key: InternalKey)
    requires TotalOrder(user) && SortedBy(s, InternalOrder(user))
    ensures Has(s, InternalOrder(user), key) ==> s[LowerBound(s, InternalOrder(user), key)].0 == key
    ensures !Has(s, InternalOrder(user), key) ==> forall e | e in s :: e.0 != key
    ensures forall i | 0 <= i < |s| && s[i].0 == key :: Lookup(s, InternalOrder(user), key) == Some(s[i].1)
  {
    InternalOrderIsTotal(user);
    HasMeans(s, InternalOrder(user), key);
  }

  lemma ReplaceMembers(s: Table, user: (Bytes, Bytes) -> int, x: (InternalKey, Entry), n: nat, e: (InternalKey, Entry))
    requires TotalOrder(user) && SortedBy(s, InternalOrder(user)) && n < |s| && s[n].0 == x.0
    ensures e in s[n := x] <==> e == x || (e in s && e.0 != x.0)
  {
    assert s == s[..n] + [s[n]] + s[n + 1..] && s[n := x] == s[..n] + [x] + s[n + 1..];
    OthersDiffer(s, user, x.0, n);
    MembersAfterReplace(s[..n], s[n], x, s[n + 1..], e);
  }

  lemma MembersAfterReplace(a: Table, was: (InternalKey, Entry), x: (InternalKey, Entry), b: Table, e: (InternalKey, Entry))
    requires was.0 == x.0 && forall y | y in a + b :: y.0 != x.0
    ensures e in a + [x] + b <==> e == x || (e in a + [was] + b && e.0 != x.0)
  {
    assert e in a + b ==> e in a + [was] + b;
  }

  lemma OthersDiffer(s: Table, user: (Bytes, Bytes) -> int, key: InternalKey, n: nat)
    requires TotalOrder(user) && SortedBy(s, InternalOrder(user)) && n < |s| && s[n].0 == key
    ensures forall e | e in s[..n] + s[n + 1..] :: e.0 != key
  {
    var order := InternalOrder(user);
    InternalOrderIsTotal(user);
    forall i | 0 <= i < |s| && i != n
      ensures s[i].0 != key
    {
      assert order(s[if i < n then i else n].0, s[if i < n then n else i].0) < 0;
    }
  }

  // Adding a version changes one cell, and that one as the LSM tree does.
  lemma AddIsWrite(s: Table, user: (Bytes, Bytes) -> int, m: Lsm, x: (InternalKey, Entry))
    requires TotalOrder(user) && GoodTable(s, user) && Models(s, m) && GoodEntry(x)
    ensures var s' := PutEntry(s, InternalOrder(user), x.0, x.1);
            GoodTable(s', user) && Models(s', Added(m, x))
  {
    var s', m' := PutEntry(s, InternalOrder(user), x.0, x.1), Added(m, x);
    InternalOrderIsTotal(user);
    PutSorted(s, InternalOrder(user), x.0, x.1);
    forall e: (InternalKey, Entry)
      ensures e in s' <==> e == x || (e in s && e.0 != x.0)
    {
      PutMembers(s, user, x, e);
    }
    AddKeepsModels(s, s', m, x);
  }

  function Added(m: Lsm, x: (InternalKey, Entry)): Lsm {
    var p := Parts(x.0);
    Write(m, Key(p.user), p.seqno, KindPayload(p.kind, x.1.value))
  }

  lemma AddKeepsModels(s: Table, s': Table, m: Lsm, x: (InternalKey, Entry))
    requires Models(s, m) && GoodEntry(x)
    requires forall e: (InternalKey, Entry) :: e in s' <==> e == x || (e in s && e.0 != x.0)
    ensures Models(s', Added(m, x))
  {
    var p, m' := Parts(x.0), Added(m, x);
    forall e | e in s'
      ensures EntryShows(e, m')
    {
      EncodeOfParts(e.0);
      EncodeOfParts(x.0);
    }
    forall k, c | (k, c) in m'.cells
      ensures c <= m'.top && HasVersion(s', k.bytes, c, m'.cells[(k, c)])
    {
      if (k, c) == (Key(p.user), p.seqno) && m'.cells[(k, c)] == KindPayload(p.kind, x.1.value) {
        assert x in s';
      } else {
        var e :| e in s && IsVersion(e, k.bytes, c) && KindPayload(Parts(e.0).kind, e.1.value) == m.cells[(k, c)];
        assert e in s';
      }
    }
    AddKeepsTombs(s, s', m, x);
  }

  lemma AddKeepsTombs(s: Table, s': Table, m: Lsm, x: (InternalKey, Entry))
    requires Models(s, m) && GoodEntry(x)
    requires forall e: (InternalKey, Entry) :: e in s' <==> e == x || (e in s && e.0 != x.0)
    ensures forall k, c: SeqNo :: (k, c) in Added(m, x).tombs <==> HasVersion(s', k.bytes, c, Delete)
  {
    EncodeOfParts(x.0);
    forall k, c: SeqNo
      ensures (k, c) in Added(m, x).tombs <==> HasVersion(s', k.bytes, c, Delete)
    {
      if IsVersion(x, k.bytes, c) && KindPayload(Parts(x.0).kind, x.1.value) == Delete {
        assert x in s';
      } else if e :| e in s && IsVersion(e, k.bytes, c) && KindPayload(Parts(e.0).kind, e.1.value) == Delete {
        EncodeOfParts(e.0);
        assert e in s';
      }
    }
  }

  // ---- finding the newest visible version ----

  // An entry of the key that a snapshot sees.
  predicate Matches(e: (InternalKey, Entry), key: Bytes, snapshot: nat) {
    Parts(e.0).user == key && (snapshot == 0 || Parts(e.0).seqno <= snapshot)
  }

  // The first matching entry from place i on.
  function FirstMatch(s: Table, key: Bytes, snapshot: nat, i: nat): (n: nat)
    requires i <= |s|
    ensures i <= n <= |s|
    decreases |s| - i
  {
    if i == |s| || Matches(s[i], key, snapshot) then i else FirstMatch(s, key, snapshot, i + 1)
  }

  lemma {:induction false} FirstMatchIs(s: Table, key: Bytes, snapshot: nat, i: nat, n: nat)
    requires i <= n <= |s| && forall j | i <= j < n :: !Matches(s[j], key, snapshot)
    ensures FirstMatch(s, key, snapshot, i) == FirstMatch(s, key, snapshot, n)
    decreases n - i
  {
    if i < n {
      FirstMatchIs(s, key, snapshot, i + 1, n);
    }
  }

  lemma {:induction false} NothingBeforeFirst(s: Table, key: Bytes, snapshot: nat, i: nat, j: nat)
    requires i <= |s| && i <= j < FirstMatch(s, key, snapshot, i)
    ensures !Matches(s[j], key, snapshot)
    decreases j - i
  {
    if i < j {
      NothingBeforeFirst(s, key, snapshot, i + 1, j);
    }
  }

  lemma {:induction false} FirstMatches(s: Table, key: Bytes, snapshot: nat, i: nat)
    requires i <= |s|
    ensures FirstMatch(s, key, snapshot, i) < |s| ==> Matches(s[FirstMatch(s, key, snapshot, i)], key, snapshot)
    decreases |s| - i
  {
    if i < |s| && !Matches(s[i], key, snapshot) {
      FirstMatches(s, key, snapshot, i + 1);
    }
  }

  // What the search does with one entry.
  datatype Verdict = Stop | Skip | Answer(payload: Payload)

  function Judge(e: (InternalKey, Entry), key: Bytes, snapshot: nat): Verdict {
    var p := Parts(e.0);
    if p.user != key then Stop
    else if snapshot > 0 && p.seqno > snapshot then Skip
    else Answer(KindPayload(p.kind, e.1.value))
  }

  function Scan(s: Table, key: Bytes, snapshot: nat, i: nat): Option<Payload>
    requires i <= |s|
    decreases |s| - i
  {
    if i == |s| then None
    else match Judge(s[i], key, snapshot)
         case Stop => None
         case Skip => Scan(s, key, snapshot, i + 1)
         case Answer(p) => Some(p)
  }

  lemma OneEntry(s: Table, key: Bytes, snapshot: nat, i: nat)
    requires i < |s|
    ensures Scan(s, key, snapshot, i) == match Judge(s[i], key, snapshot)
            case Stop => None
            case Skip => Scan(s, key, snapshot, i + 1)
            case Answer(p) => Some(p)
  {
  }

  lemma NoEntryLeft(s: Table, key: Bytes, snapshot: nat)
    ensures Scan(s, key, snapshot, |s|) == None
  {
  }

  // The search starts behind everything that sorts before the key's entries.
  predicate IsSeekKey(seek: InternalKey, key: Bytes) {
    Parts(seek) == Parsed(key, SEQ_SPAN - 1, VALUE)
  }

  lemma NothingBeforeSeek(s: Table, user: (Bytes, Bytes) -> int, seek: InternalKey, key: Bytes, i: nat)
    requires TotalOrder(user) && GoodTable(s, user) && IsSeekKey(seek, key)
    requires i < LowerBound(s, InternalOrder(user), seek)
    ensures Parts(s[i].0).user != key
  {
    EncodeOfParts(s[i].0);
    assert GoodEntry(s[i]) && user(key, key) == 0;
  }

  // Past the key's own entries none follows.
  lemma NothingAfterOther(s: Table, user: (Bytes, Bytes) -> int, seek: InternalKey, key: Bytes, at: nat, i: nat)
    requires TotalOrder(user) && GoodTable(s, user) && IsSeekKey(seek, key)
    requires LowerBound(s, InternalOrder(user), seek) <= at <= i < |s|
    requires Parts(s[at].0).user != key
    ensures Parts(s[i].0).user != key
  {
    if at < i {
      AtOrAfterSeek(s, user, seek, at);
      OtherKeyFollows(user, Parts(seek), Parts(s[at].0), Parts(s[i].0));
    }
  }

  lemma AtOrAfterSeek(s: Table, user: (Bytes, Bytes) -> int, seek: InternalKey, at: nat)
    requires TotalOrder(user) && SortedBy(s, InternalOrder(user))
    requires LowerBound(s, InternalOrder(user), seek) <= at < |s|
    ensures CompareParsed(user, Parts(s[at].0), Parts(seek)) >= 0
    ensures forall i | at < i < |s| :: CompareParsed(user, Parts(s[at].0), Parts(s[i].0)) < 0
  {
    InternalOrderIsTotal(user);
    AfterBound(s, InternalOrder(user), seek, at);
    forall i | at < i < |s|
      ensures CompareParsed(user, Parts(s[at].0), Parts(s[i].0)) < 0
    {
      assert InternalOrder(user)(s[at].0, s[i].0) < 0;
    }
  }

  lemma NoMatchBefore(s: Table, user: (Bytes, Bytes) -> int, seek: InternalKey, key: Bytes, snapshot: nat)
    requires TotalOrder(user) && GoodTable(s, user) && IsSeekKey(seek, key)
    ensures FirstMatch(s, key, snapshot, 0) == FirstMatch(s, key, snapshot, LowerBound(s, InternalOrder(user), seek))
  {
    forall i: nat | i < LowerBound(s, InternalOrder(user), seek)
      ensures !Matches(s[i], key, snapshot)
    {
      NothingBeforeSeek(s, user, seek, key, i);
    }
    FirstMatchIs(s, key, snapshot, 0, LowerBound(s, InternalOrder(user), seek));
  }

  lemma NoMatchAfter(s: Table, user: (Bytes, Bytes) -> int, seek: InternalKey, key: Bytes, snapshot: nat, at: nat)
    requires TotalOrder(user) && GoodTable(s, user) && IsSeekKey(seek, key)
    requires LowerBound(s, InternalOrder(user), seek) <= at < |s| && Parts(s[at].0).user != key
    ensures FirstMatch(s, key, snapshot, at) == |s|
  {
    forall i: nat | at <= i < |s|
      ensures !Matches(s[i], key, snapshot)
    {
      NothingAfterOther(s, user, seek, key, at, i);
    }
    FirstMatchIs(s, key, snapshot, at, |s|);
  }

  lemma OtherKeyFollows(user: (Bytes, Bytes) -> int, seek: Parsed, a: Parsed, b: Parsed)
    requires TotalOrder(user) && CompareParsed(user, a, seek) >= 0 && CompareParsed(user, a, b) < 0
    requires a.user != seek.user
    ensures b.user != seek.user
  {
    assert user(a.user, b.user) <= 0 && user(a.user, seek.user) > 0;
  }

  lemma NewerSortsFirst(s: Table, user: (Bytes, Bytes) -> int, i: nat, j: nat)
    requires TotalOrder(user) && GoodTable(s, user) && i < |s| && j < |s|
    requires Parts(s[i].0).user == Parts(s[j].0).user
    requires Parts(s[j].0).seqno > Parts(s[i].0).seqno
          || (Parts(s[j].0).seqno == Parts(s[i].0).seqno && Parts(s[j].0).kind < Parts(s[i].0).kind)
    ensures j < i
  {
    assert user(Parts(s[i].0).user, Parts(s[j].0).user) == 0;
    assert InternalOrder(user)(s[i].0, s[j].0) > 0;
  }

  // The first matching entry in table order is the version the LSM tree reads.
  lemma FirstMatchIsRead(s: Table, user: (Bytes, Bytes) -> int, m: Lsm, key: Bytes, snapshot: nat, i: nat)
    requires TotalOrder(user) && GoodTable(s, user) && Models(s, m)
    requires i < |s| && Matches(s[i], key, snapshot)
    requires forall j | 0 <= j < i :: !Matches(s[j], key, snapshot)
    ensures Read(m, Key(key), snapshot, ValueWins) == Some(KindPayload(Parts(s[i].0).kind, s[i].1.value))
  {
    var c, bound := Parts(s[i].0).seqno, if snapshot == 0 then m.top else snapshot;
    assert EntryShows(s[i], m);
    forall c' | c < c' <= bound
      ensures (Key(key), c') !in m.cells
    {
      if (Key(key), c') in m.cells {
        var j := CellHasEntry(s, m, key, c');
        NewerSortsFirst(s, user, i, j);
      }
    }
    NewestIs(m.cells, Key(key), bound, c);
    var j := CellHasEntry(s, m, key, c);
    assert GoodEntry(s[i]) && GoodEntry(s[j]);
    if Parts(s[i].0).kind == DELETION && Parts(s[j].0).kind == VALUE {
      NewerSortsFirst(s, user, i, j);
    }
  }

  lemma CellHasEntry(s: Table, m: Lsm, key: Bytes, c: nat) returns (i: nat)
    requires Models(s, m) && (Key(key), c) in m.cells
    ensures i < |s| && IsVersion(s[i], key, c)
    ensures KindPayload(Parts(s[i].0).kind, s[i].1.value) == m.cells[(Key(key), c)]
  {
    var e :| e in s && IsVersion(e, key, c) && KindPayload(Parts(e.0).kind, e.1.value) == m.cells[(Key(key), c)];
    i :| i < |s| && s[i] == e;
  }

  lemma NoMatchIsNone(s: Table, m: Lsm, key: Bytes, snapshot: nat)
    requires Models(s, m)
    requires forall j | 0 <= j < |s| :: !Matches(s[j], key, snapshot)
    ensures Read(m, Key(key), snapshot, ValueWins) == None
  {
    var bound := if snapshot == 0 then m.top else snapshot;
    forall c: SeqNo | c <= bound
      ensures (Key(key), c) !in m.cells
    {
      if (Key(key), c) in m.cells {
        var j := CellHasEntry(s, m, key, c);
      }
    }
    NewestIsNone(m.cells, Key(key), bound);
  }

  lemma MatchIsRead(s: Table, user: (Bytes, Bytes) -> int, m: Lsm, key: Bytes, snapshot: nat)
    requires TotalOrder(user) && GoodTable(s, user) && Models(s, m)
    ensures var n := FirstMatch(s, key, snapshot, 0);
            Read(m, Key(key), snapshot, ValueWins) == if n < |s| then Some(KindPayload(Parts(s[n].0).kind, s[n].1.value)) else None
  {
    var n := FirstMatch(s, key, snapshot, 0);
    forall j: nat | j < n
      ensures !Matches(s[j], key, snapshot)
    {
      NothingBeforeFirst(s, key, snapshot, 0, j);
    }
    if n < |s| {
      FirstMatches(s, key, snapshot, 0);
      FirstMatchIsRead(s, user, m, key, snapshot, n);
    } else {
      NoMatchIsNone(s, m, key, snapshot);
    }
  }

  lemma {:induction false} ScanFindsFirstMatch(s: Table, user: (Bytes, Bytes) -> int, seek: InternalKey, key: Bytes, snapshot: nat, i: nat)
    requires TotalOrder(user) && GoodTable(s, user) && IsSeekKey(seek, key)
    requires LowerBound(s, InternalOrder(user), seek) <= i <= |s|
    ensures var n := FirstMatch(s, key, snapshot, i);
            Scan(s, key, snapshot, i) == if n < |s| then Some(KindPayload(Parts(s[n].0).kind, s[n].1.value)) else None
    decreases |s| - i
  {
    if i < |s| {
      match Judge(s[i], key, snapshot)
      case Stop => NoMatchAfter(s, user, seek, key, snapshot, i);
      case Skip => ScanFindsFirstMatch(s, user, seek, key, snapshot, i + 1);
      case Answer(p) =>
    }
  }

  // Searching from the seek key on answers like the LSM tree.
  lemma ScanIsRead(s: Table, user: (Bytes, Bytes) -> int, m: Lsm, seek: InternalKey, key: Bytes, snapshot: nat)
    requires TotalOrder(user) && GoodTable(s, user) && Models(s, m) && IsSeekKey(seek, key)
    ensures Scan(s, key, snapshot, LowerBound(s, InternalOrder(user), seek)) == Read(m, Key(key), snapshot, ValueWins)
  {
    NoMatchBefore(s, user, seek, key, snapshot);
    ScanFindsFirstMatch(s, user, seek, key, snapshot, LowerBound(s, InternalOrder(user), seek));
    MatchIsRead(s, user, m, key, snapshot);
  }

  // ---- the table itself ----

  datatype WriteStatus = Ok | InvalidArgument

  class MemTable {
    const user: (Bytes, Bytes) -> int
    const table: SkipList<InternalKey, Entry>
    var immutable: bool
    var numEntries: nat
    // For the proofs: the versions held.
    ghost var model: Lsm

    constructor (user: (Bytes, Bytes) -> int)
      requires TotalOrder(user)
      ensures Valid() && fresh(table) && fresh(set n | n in table.row) && !immutable && model == EMPTY_LSM
    {
      this.user := user;
      InternalOrderIsTotal(user);
      var noKey := InternalKey([0, 0, 0, 0, 0, 0, 0, 0]);
      table := new SkipList(InternalOrder(user), noKey, Entry(noKey, []));
      immutable, numEntries, model := false, 0, EMPTY_LSM;
    }

    ghost predicate Ordered()
      reads table, table.row
    {
      TotalOrder(user) && table.Valid() && table.cmp == InternalOrder(user) && GoodTable(table.Contents(), user)
    }

    ghost predicate Valid()
      reads this, table, table.row
    {
      Ordered() && Models(table.Contents(), model)
    }

    method Put(key: Bytes, value: Bytes, seqno: nat, height: nat) returns (status: WriteStatus)
      requires Valid() && 1 <= height <= MAX_HEIGHT
      modifies this, table, table.row
      ensures Valid() && immutable == old(immutable)
      ensures status == if immutable then InvalidArgument else Ok
      ensures model == if immutable then old(model) else Write(old(model), Key(key), seqno % SEQ_SPAN, Types.Put(Value(value)))
      ensures numEntries == if immutable then old(numEntries) else old(numEntries) + 1
    {
      if immutable {
        return InvalidArgument;
      }
      var internalKey := Encode(key, seqno, VALUE);
      PartsOfEncode(key, seqno, VALUE);
      Add(Entry(internalKey, value), height);
      status := Ok;
    }

    method Delete(key: Bytes, seqno: nat, height: nat) returns (status: WriteStatus)
      requires Valid() && 1 <= height <= MAX_HEIGHT
      modifies this, table, table.row
      ensures Valid() && immutable == old(immutable)
      ensures status == if immutable then InvalidArgument else Ok
      ensures model == if immutable then old(model) else Write(old(model), Key(key), seqno % SEQ_SPAN, Types.Delete)
      ensures numEntries == if immutable then old(numEntries) else old(numEntries) + 1
    {
      if immutable {
        return InvalidArgument;
      }
      var internalKey := Encode(key, seqno, DELETION);
      PartsOfEncode(key, seqno, DELETION);
      Add(Entry(internalKey, []), height);
      status := Ok;
    }

    method Add(entry: Entry, height: nat)
      requires Valid() && 1 <= height <= MAX_HEIGHT && GoodEntry((entry.key, entry))
      modifies this, table, table.row
      ensures Valid() && immutable == old(immutable) && numEntries == old(numEntries) + 1
      ensures model == Added(old(model), (entry.key, entry))
    {
      hide PutEntry;
      ghost var x := (entry.key, entry);
      AddIsWrite(table.Contents(), user, model, x);
      ghost var next, model' := PutEntry(table.Contents(), table.cmp, x.0, x.1), Added(model, x);
      assert GoodTable(next, user) && Models(next, model');
      table.Insert(entry.key, entry, height);
      assert table.Contents() == next;
      numEntries, model := numEntries + 1, model';
    }

    // What the newest version at or before the snapshot says, tombstones told from misses;
    // snapshot 0 asks for the newest of all.
    method Get(key: Bytes, snapshot: nat) returns (r: Option<Payload>)
      requires Valid()
      ensures r == Read(model, Key(key), snapshot, ValueWins)
    {
      var seek := Encode(key, MAX_WORD, VALUE);
      PartsOfEncode(key, MAX_WORD, VALUE);
      assert IsSeekKey(seek, key);
      ScanIsRead(table.Contents(), user, model, seek, key, snapshot);
      r := Search(seek, key, snapshot);
    }

    method Search(seek: InternalKey, key: Bytes, snapshot: nat) returns (r: Option<Payload>)
      requires Ordered()
      ensures r == Scan(table.Contents(), key, snapshot, LowerBound(table.Contents(), table.cmp, seek))
    {
      hide Judge, Scan, LowerBound, GoodTable, SkipList.Valid;
      var iter := new Cursor(table);
      iter.Seek(seek);
      ghost var all := table.Contents();
      ghost var at := iter.place;
      ghost var answer := Scan(all, key, snapshot, at);
      while iter.Valid()
        invariant iter.At() && at == iter.place <= |all| && (iter.Valid() <==> at < |all|)
        invariant Scan(all, key, snapshot, at) == answer
        decreases |all| - at
      {
        var verdict := Inspect(iter, key, snapshot, all);
        OneEntry(all, key, snapshot, at);
        if verdict == Stop {
          return None;
        } else if verdict.Answer? {
          return Some(verdict.payload);
        }
        at := at + 1;
      }
      NoEntryLeft(all, key, snapshot);
      return None;
    }

    // The entry is looked up again under the cursor's key.
    method EntryUnder(iter: Cursor<InternalKey, Entry>) returns (entry: Entry)
      requires Ordered() && iter.list == table && iter.At() && iter.Valid()
      ensures (entry.key, entry) == table.Contents()[iter.place] && GoodEntry((entry.key, entry))
    {
      var k, current := iter.Current();
      var found := table.Get(k);
      HasKey(table.Contents(), user, k);
      assert GoodEntry(table.Contents()[iter.place]);
      entry := found.value;
    }

    method Inspect(iter: Cursor<InternalKey, Entry>, key: Bytes, snapshot: nat, ghost all: Table) returns (verdict: Verdict)
      requires Ordered() && iter.list == table && iter.At() && iter.Valid() && all == table.Contents()
      modifies iter
      ensures verdict == Judge(all[old(iter.place)], key, snapshot)
      ensures verdict == Skip ==> iter.At() && iter.place == old(iter.place) + 1
      ensures verdict == Skip ==> (iter.Valid() <==> iter.place < |all|)
    {
      var entry := EntryUnder(iter);
      var p := Parts(entry.key);
      if p.user != key {
        return Stop;
      }
      if snapshot > 0 && p.seqno > snapshot {
        iter.Next();
        return Skip;
      }
      if p.kind == VALUE {
        verdict := Answer(Types.Put(Value(entry.value)));
      } else {
        verdict := Answer(Types.Delete);
      }
    }
  }
}
