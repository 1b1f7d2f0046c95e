/** Reopening an engine after a crash, and when the next session starts as it must. */
module Reopening {
  import opened Types
  import opened Lsm
  import opened History
  import opened Engine
  import opened EngineInvariant
  import opened EngineTheorems
  import opened Stability
  import opened Durability
  import Locks

  // ---- the state after recovery ----

  // A key's versions found in the tree up to sequence n; nobody of the new session made them.
  function VersionsUpTo(cells: Cells, k: Key, n: SeqNo): seq<Version> {
    if n == 0 then []
    else VersionsUpTo(cells, k, n - 1) + if (k, n) in cells then [Version(cells[(k, n)], n, 0)] else []
  }

  function HistoryFound(l: Lsm): map<Key, KeyHistory> {
    map k | k in KeysIn(l) :: Found(VersionsUpTo(l.cells, k, l.top))
  }

  function KeysIn(l: Lsm): set<Key> {
    set x | x in l.cells :: x.0
  }

  function Found(vs: seq<Version>): KeyHistory {
    KeyHistory(vs, |vs|, |vs|)
  }

  // The generator goes on from the larger of what was replayed and what the last clean
  // shutdown wrote down; identifiers start over.
  function LastKnown(log: seq<LogEntry>, persisted: SeqNo): SeqNo {
    if MaxSeq(log) > persisted then MaxSeq(log) else persisted
  }

  function Reopen(left: Lsm, log: seq<LogEntry>, persisted: SeqNo): State {
    var l := Recover(left, log);
    State(map[], l, 1, LastKnown(log, persisted) + 1, map[], map[], Locks.EMPTY, NoFlight, HistoryFound(l))
  }

  // ---- the history found ----

  lemma {:induction false} VersionsAre(cells: Cells, k: Key, n: SeqNo)
    ensures var vs := VersionsUpTo(cells, k, n);
            && (forall i | 0 <= i < |vs| :: 1 <= vs[i].commit <= n && vs[i].txn == 0
                                        && (k, vs[i].commit) in cells && cells[(k, vs[i].commit)] == vs[i].payload)
            && Strict(vs)
            && (forall c: SeqNo | 1 <= c <= n && (k, c) in cells :: exists i :: 0 <= i < |vs| && vs[i].commit == c)
  {
    if n > 0 {
      VersionsAre(cells, k, n - 1);
      var init, vs := VersionsUpTo(cells, k, n - 1), VersionsUpTo(cells, k, n);
      forall c: SeqNo | 1 <= c <= n && (k, c) in cells
        ensures exists i :: 0 <= i < |vs| && vs[i].commit == c
      {
        if c < n {
          var i :| 0 <= i < |init| && init[i].commit == c;
          assert vs[i] == init[i];
        } else {
          assert vs[|vs| - 1].commit == c;
        }
      }
    }
  }

  lemma FoundFor(l: Lsm, k: Key)
    requires Orderly(l)
    ensures HistIn(HistoryFound(l), k) == Found(VersionsUpTo(l.cells, k, l.top))
  {
    if k !in KeysIn(l) {
      NoneFound(l, k, l.top);
    }
  }

  lemma {:induction false} NoneFound(l: Lsm, k: Key, n: SeqNo)
    requires k !in KeysIn(l)
    ensures VersionsUpTo(l.cells, k, n) == []
  {
    if n > 0 {
      NoneFound(l, k, n - 1);
      assert (k, n).0 == k;
    }
  }

  // A value and a tombstone nowhere share a place, and nothing lies at sequence 0.
  ghost predicate Unambiguous(l: Lsm) {
    && (forall x | x in l.tombs :: x in l.cells && l.cells[x].Delete?)
    && (forall x | x in l.cells :: x.1 != 0)
  }

  lemma FoundIsRecovered(l: Lsm, s: State, k: Key)
    requires Orderly(l) && Unambiguous(l) && s.lsm == l && s.hist == HistoryFound(l) && l.top < s.nextSeq
    ensures RecoveredKey(s, k)
  {
    FoundFor(l, k);
    VersionsAre(l.cells, k, l.top);
    var vs := HistOf(s, k).versions;
    forall i | 0 <= i < |vs|
      ensures (k, vs[i].commit) in l.tombs <==> vs[i].payload == Delete
    {
      assert (k, vs[i].commit) in l.cells;
    }
    forall c | (k, c) in l.cells
      ensures exists i :: 0 <= i < |vs| && vs[i].commit == c
    {
      assert (k, c).1 <= l.top && (k, c).1 != 0;
    }
  }

  lemma RecoveredIsUnambiguous(s: State)
    requires Orderly(s.lsm) && forall k :: RecoveredKey(s, k)
    ensures Unambiguous(s.lsm)
  {
    forall x | x in s.lsm.cells
      ensures x.1 != 0 && (x in s.lsm.tombs ==> s.lsm.cells[x].Delete?)
    {
      var (k, c) := x;
      assert RecoveredKey(s, k);
      var i :| 0 <= i < |HistOf(s, k).versions| && HistOf(s, k).versions[i].commit == c;
    }
  }

  // ---- when a session can start ----

  // A reopened engine is as every session must start exactly if its tree is unambiguous and the
  // generator has been brought up to the tree's top: what is replayed or was written down at the
  // last clean shutdown reaches every sequence in the tree.
  lemma ReopenedExactly(left: Lsm, log: seq<LogEntry>, persisted: SeqNo)
    requires Orderly(left)
    ensures Init(Reopen(left, log, persisted)) <==>
              Unambiguous(Recover(left, log)) && LastKnown(log, persisted) >= left.top
  {
    var l, s := Recover(left, log), Reopen(left, log, persisted);
    RecoverKeepsOrderly(left, log);
    RecoveredTop(left, log);
    if Init(s) {
      RecoveredIsUnambiguous(s);
    }
    if Unambiguous(l) && LastKnown(log, persisted) >= left.top {
      forall k
        ensures RecoveredKey(s, k)
      {
        FoundIsRecovered(l, s, k);
      }
    }
  }

  // Every sequence replayed is below the next one given out.
  lemma ReplayedBelowNext(left: Lsm, log: seq<LogEntry>, persisted: SeqNo, e: LogEntry)
    requires e in log
    ensures e.seqno < Reopen(left, log, persisted).nextSeq
  {
  }

  // ---- from one session to the next ----

  // What a reader of the reopened engine calls the history is what replay answers.
  lemma FoundReads(l: Lsm, k: Key, q: SeqNo)
    requires Orderly(l) && Unambiguous(l) && 1 <= q
    ensures HistRead(HistIn(HistoryFound(l), k).versions, q) == Read(l, k, q, ValueWins)
  {
    FoundFor(l, k);
    VersionsAre(l.cells, k, l.top);
    var vs := VersionsUpTo(l.cells, k, l.top);
    var i := NewestIndex(vs, q);
    forall c: SeqNo | c <= q && (k, c) in l.cells
      ensures i >= 0 && c <= vs[i].commit
    {
      assert (k, c).1 <= l.top && (k, c).1 != 0;
      var j :| 0 <= j < |vs| && vs[j].commit == c;
    }
    if i < 0 {
      NewestIsNone(l.cells, k, q);
    } else {
      NewestIs(l.cells, k, q, vs[i].commit);
    }
  }

  // After a session in which no transaction wrote a key twice, whatever the crash left.
  ghost predicate Crashed(s0: State, steps: seq<LoggedStep>, s: State, left: Lsm, replayed: seq<LogEntry>) {
    && Init(s0) && LoggedRun(s0, steps, s) && RunOnce(s0, Plain(steps), s)
    && Remains(s0.lsm, left, s.hist)
    && forall e :: e in replayed <==> e in LogOf(steps)
  }

  lemma CrashedIsUnambiguous(s0: State, steps: seq<LoggedStep>, s: State, left: Lsm, replayed: seq<LogEntry>)
    requires Crashed(s0, steps, s, left, replayed)
    ensures Orderly(Recover(left, replayed)) && Unambiguous(Recover(left, replayed))
  {
    hide Inv, Init, LoggedRun, RunOnce, Durable, Recover, Orderly, StrictKey;
    assert Orderly(left) by {
      assert Remains(s0.lsm, left, s.hist);
    }
    RecoverKeepsOrderly(left, replayed);
    SessionIsDurable(s0, steps, s);
    SameEntriesSameDurability(s0.lsm, LogOf(steps), replayed, s.hist);
    var l := Recover(left, replayed);
    forall x: Cell
      ensures x in l.tombs ==> x in l.cells && l.cells[x].Delete?
      ensures x in l.cells ==> x.1 != 0
    {
      OnceRunIsStrict(s0, Plain(steps), s, x.0);
      PlaceIsUnambiguous(s0.lsm, left, replayed, s, x.0, x.1);
      assert (x.0, x.1) == x;
    }
  }

  lemma PlaceIsUnambiguous(base: Lsm, left: Lsm, log: seq<LogEntry>, s: State, k: Key, c: SeqNo)
    requires Inv(s) && StrictKey(s, k) && Durable(base, log, s.hist) && Remains(base, left, s.hist) && Orderly(Recover(left, log))
    ensures (k, c) in Recover(left, log).tombs ==> (k, c) in Recover(left, log).cells && Recover(left, log).cells[(k, c)].Delete?
    ensures (k, c) in Recover(left, log).cells ==> c != 0
  {
    hide Inv, Durable, Remains, Recover, Group;
    var l := Recover(left, log);
    assert (k, c) in l.tombs ==> (k, c) in l.cells;
    if (k, c) in l.cells {
      InvKey(s, k);
      var vs := HistOf(s, k).versions;
      RecoveredCell(base, left, log, s.hist, k, c);
      var g := Group(vs, c);
      GroupHolds(vs, c, g[|g| - 1]);
      var i :| 0 <= i < |vs| && vs[i].commit == c && vs[i].payload == g[|g| - 1];
      GroupOfStrict(vs, i);
      NoClash(base, left, s, k, vs[i]);
      AnswersOfCell(l, k, c);
    }
  }

  lemma NoClash(base: Lsm, left: Lsm, s: State, k: Key, v: Version)
    requires Remains(base, left, s.hist) && Group(HistOf(s, k).versions, v.commit) == [v.payload]
    ensures !Clashes(left, k, v.commit, v.payload)
  {
  }

  // The next session starts as it must exactly if the generator reaches the top of what the
  // crash left, and its history is then that of the session before.
  lemma NextSession(s0: State, steps: seq<LoggedStep>, s: State, left: Lsm, replayed: seq<LogEntry>, persisted: SeqNo)
    requires Crashed(s0, steps, s, left, replayed)
    ensures Init(Reopen(left, replayed, persisted)) <==> LastKnown(replayed, persisted) >= left.top
    ensures forall k, q: SeqNo | 1 <= q ::
      HistRead(HistOf(Reopen(left, replayed, persisted), k).versions, q) == HistRead(HistOf(s, k).versions, q)
  {
    hide Init, LoggedRun, RunOnce, Inv, Recover, HistoryFound, Orderly, Unambiguous, RecoversHistory;
    assert Orderly(left) by {
      assert Remains(s0.lsm, left, s.hist);
    }
    CrashedIsUnambiguous(s0, steps, s, left, replayed);
    ReopenedExactly(left, replayed, persisted);
    forall k, q: SeqNo | 1 <= q
      ensures HistRead(HistOf(Reopen(left, replayed, persisted), k).versions, q) == HistRead(HistOf(s, k).versions, q)
    {
      DurableHistoryOnce(s0, steps, s, left, replayed, k, q);
      FoundReads(Recover(left, replayed), k, q);
      OneTie(left, replayed, k, HistOf(s, k).versions, q);
    }
  }

  lemma OneTie(left: Lsm, log: seq<LogEntry>, k: Key, vs: seq<Version>, q: SeqNo)
    requires RecoversHistory(left, log, k, vs, q)
    ensures Read(Recover(left, log), k, q, ValueWins) == HistRead(vs, q)
  {
  }

  // ---- two crashes ----

  // Recovery removes the log it has replayed, and the last sequence is written down only by a
  // clean shutdown. One crash after commit n recovers; a second one before any new commit finds
  // an empty log and nothing written down: numbers start over at 1 under a tree reaching up to
  // n, and a read at the new session's numbers misses what was committed.
  lemma SecondCrashForgets(k: Key, v: Value, n: SeqNo)
    requires n >= 2
    ensures var log := [LogEntry(k, Put(v), n)];
            var first := Reopen(EMPTY_LSM, log, 0);
            var second := Reopen(first.lsm, [], 0);
            && Init(first) && SnapshotRead(first, k, Current(first), ValueWins) == Some(Put(v))
            && second.lsm == first.lsm && second.nextSeq == 1 && !Init(second)
            && forall tie :: SnapshotRead(second, k, second.nextSeq, tie) == None
  {
    hide HistoryFound;
    var log := [LogEntry(k, Put(v), n)];
    assert log[..|log| - 1] == [] && Recover(EMPTY_LSM, []) == EMPTY_LSM;
    var l := Recover(EMPTY_LSM, log);
    assert l == Write(EMPTY_LSM, k, n, Put(v)) && l.cells == map[(k, n) := Put(v)];
    assert MaxSeq(log) == n;
    ReopenedExactly(EMPTY_LSM, log, 0);
    RecoverKeepsOrderly(EMPTY_LSM, log);
    ReopenedExactly(l, [], 0);
    NewestIs(l.cells, k, n, n);
    NewestIsNone(l.cells, k, 1);
  }
}
