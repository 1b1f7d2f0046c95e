/** The transaction manager and its transactions, proved to take the steps of the engine. */
module Transactions {
  import opened Types
  import opened VersionChain
  import opened Lsm
  import opened Engine
  import opened Durability
  import Locks

  // A whole, uninterrupted FlushCommittedToLSM that picks the keys ks.
  function WholeFlush(s: State, ks: seq<Key>): State {
    var picked := DoPick(s, ks);
    var items := picked.flight.items;
    DoFlushDone(picked.(lsm := WriteItems(s.lsm, items), flight := picked.flight.(written := |items|)))
  }

  // A flush that has written n more of its items.
  function AfterWrites(s: State, n: nat): State
    requires s.flight.Flight? && s.flight.written + n <= |s.flight.items|
  {
    s.(lsm := WriteItems(s.lsm, s.flight.items[s.flight.written..s.flight.written + n]),
       flight := s.flight.(written := s.flight.written + n))
  }

  lemma {:induction false} WritesLead(s: State, n: nat)
    requires s.flight.Flight? && s.flight.written + n <= |s.flight.items|
    ensures Leads(s, AfterWrites(s, n))
    decreases n
  {
    AfterWritesStep(s, n);
    if n == 0 {
      RunNowhere(s);
    } else {
      OneStep(s, FlushWrite);
      WritesLead(DoFlushWrite(s), n - 1);
      RunJoins(s, DoFlushWrite(s), AfterWrites(s, n));
    }
  }

  lemma AfterWritesStep(s: State, n: nat)
    requires s.flight.Flight? && s.flight.written + n <= |s.flight.items|
    ensures AfterWrites(s, n) == if n == 0 then s else AfterWrites(DoFlushWrite(s), n - 1)
  {
    hide WriteItem;
    if n == 0 {
      assert s.flight.items[s.flight.written..s.flight.written] == [];
    } else {
      WriteFirstOf(s.lsm, s.flight.items, s.flight.written, n);
    }
  }

  lemma WriteFirstOf(l: Lsm, items: seq<(Key, Record)>, from: nat, n: nat)
    requires 0 < n && from + n <= |items|
    ensures WriteItems(l, items[from..from + n]) == WriteItems(WriteItem(l, items[from]), items[from + 1..from + n])
  {
    WriteFirst(l, items[from..from + n]);
    assert items[from..from + n][1..] == items[from + 1..from + n];
  }

  lemma {:induction false} WriteFirst(l: Lsm, items: seq<(Key, Record)>)
    requires items != []
    ensures WriteItems(l, items) == WriteItems(WriteItem(l, items[0]), items[1..])
  {
    var n := |items|;
    if n > 1 {
      WriteFirst(l, items[..n - 1]);
      assert items[..n - 1][1..] == items[1..][..n - 2];
    } else {
      assert items[..0] == [] && items[1..] == [];
    }
  }

  // A whole flush is a run of engine steps ...
  lemma WholeFlushIsARun(s: State, ks: seq<Key>)
    requires s.flight == NoFlight && NoRepeats(ks)
    ensures Leads(s, WholeFlush(s, ks))
  {
    var picked := DoPick(s, ks);
    var n := |picked.flight.items|;
    OneStep(s, FlushPick(ks));
    WritesLead(picked, n);
    assert picked.flight.items[0..n] == picked.flight.items;
    RunJoins(s, picked, AfterWrites(picked, n));
    OneStep(AfterWrites(picked, n), FlushDone);
    RunJoins(s, AfterWrites(picked, n), WholeFlush(s, ks));
  }

  // ... and so is one that fails after n writes.
  lemma FailedFlushIsARun(s: State, ks: seq<Key>, n: nat)
    requires s.flight == NoFlight && NoRepeats(ks) && n < |PickFrom(s.chains, ks)|
    ensures Leads(s, s.(lsm := WriteItems(s.lsm, PickFrom(s.chains, ks)[..n])))
  {
    hide Leads, WriteItems, PickFrom, HistIn;
    var picked := DoPick(s, ks);
    OneStep(s, FlushPick(ks));
    WritesLead(picked, n);
    assert picked.flight.items[0..n] == picked.flight.items[..n];
    RunJoins(s, picked, AfterWrites(picked, n));
    OneStep(AfterWrites(picked, n), FlushFail);
    RunJoins(s, AfterWrites(picked, n), s.(lsm := WriteItems(s.lsm, PickFrom(s.chains, ks)[..n])));
  }

  datatype CommitResult = Done | LogFailed | ReadsChanged

  // PrepareCommit followed by its outcome; a commit that fails validation does not get there.
  function AfterCommit(s: State, t: TxnId, r: CommitResult): State {
    if r == ReadsChanged then s else
    var prepared := s.(prepared := s.prepared[t := s.nextSeq], nextSeq := s.nextSeq + 1);
    if r == Done then DoPublish(prepared, t) else Finish(prepared, t).(chains := AbortAll(s.chains, t))
  }

  lemma CommitIsARun(s: State, t: TxnId, r: CommitResult)
    requires Usable(s, t)
    ensures Leads(s, AfterCommit(s, t, r))
  {
    if r == ReadsChanged {
      RunNowhere(s);
      return;
    }
    var s1 := Apply(s, Prepare(t));
    var last := if r == Done then Publish(t) else Abandon(t);
    OneStep(s, Prepare(t));
    OneStep(s1, last);
    RunJoins(s, s1, Apply(s1, last));
  }

  // Publishing, as the manager does it: with no commit but its own under way.
  lemma PublishIs(s: State, t: TxnId, c: SeqNo)
    requires s.prepared == map[]
    ensures DoPublish(s.(prepared := map[t := c]), t)
         == s.(chains := CommitAll(s.chains, t, c), txns := s.txns - {t}, locks := Locks.ReleaseAll(s.locks, t),
               hist := map k | k in s.hist.Keys + s.chains.Keys ::
                 var h := HistIn(s.hist, k);
                 h.(versions := h.versions + NewVersions(ChainOf(s.chains, k), t, c)))
  {
    hide NewVersions, ChainOf, HistIn, CommitAll, Locks.ReleaseAll;
    var one: map<TxnId, SeqNo> := map[t := c];
    assert one - {t} == map[];
  }

  lemma AfterCommitIs(s: State, t: TxnId)
    requires s.prepared == map[]
    ensures AfterCommit(s, t, ReadsChanged) == s
    ensures AfterCommit(s, t, Done) == DoPublish(s.(nextSeq := s.nextSeq + 1, prepared := map[t := s.nextSeq]), t)
    ensures AfterCommit(s, t, LogFailed) == Finish(s.(nextSeq := s.nextSeq + 1), t).(chains := AbortAll(s.chains, t))
  {
    hide DoPublish, AbortAll, Locks.ReleaseAll;
    var one: map<TxnId, SeqNo> := map[t := s.nextSeq];
    assert s.prepared[t := s.nextSeq] == one && one - {t} == map[] == s.prepared - {t};
  }

  // ---- the read set ----

  // What a transaction remembers of a read: the value found, if any.
  type ReadSet = map<Key, Option<Value>>

  function ValueOf(p: Option<Payload>): Option<Value> {
    match p
    case Some(Put(v)) => Some(v)
    case _ => None
  }

  // A miss is remembered only if the chain itself answers with a deletion.
  function NoteRead(noted: ReadSet, k: Key, inChain: Option<Payload>, answer: Option<Payload>): ReadSet {
    if inChain.Some? || ValueOf(answer).Some? then noted[k := ValueOf(answer)] else noted
  }

  // Validation asks the chains again, and only the chains.
  predicate Validates(cs: Chains, v: ReadView, noted: ReadSet) {
    forall k | k in noted :: ValueOf(PayloadOf(Visible(ChainOf(cs, k), v))) == noted[k]
  }

  // ---- the log of a commit ----

  // The log has an entry for every pending key among those done.
  ghost predicate LogCovers(cs: Chains, t: TxnId, c: SeqNo, log: seq<LogEntry>, done: set<Key>) {
    && (forall e | e in log :: e.seqno == c && PayloadOf(LatestActive(ChainOf(cs, e.key), t)) == Some(e.payload))
    && (forall k | k in done && LatestActive(ChainOf(cs, k), t).Some? :: Logged(log, k))
  }

  lemma NothingLogged(cs: Chains, t: TxnId, c: SeqNo)
    ensures LogCovers(cs, t, c, [], {})
  {
  }

  lemma NothingToLog(cs: Chains, t: TxnId, c: SeqNo, log: seq<LogEntry>, done: set<Key>, k: Key)
    requires LogCovers(cs, t, c, log, done) && LatestActive(ChainOf(cs, k), t).None?
    ensures LogCovers(cs, t, c, log, done + {k})
  {
  }

  lemma CoversAll(cs: Chains, t: TxnId, c: SeqNo, log: seq<LogEntry>, done: set<Key>)
    requires LogCovers(cs, t, c, log, done) && forall k | LatestActive(ChainOf(cs, k), t).Some? :: k in done
    ensures CommitLog(cs, t, c, log)
  {
  }

  // Every key the transaction has a pending write on is written to the log.
  ghost predicate AllLogged(cs: Chains, t: TxnId, logOk: Key -> bool) {
    forall k | LatestActive(ChainOf(cs, k), t).Some? :: logOk(k)
  }

  lemma LogGrows(cs: Chains, t: TxnId, c: SeqNo, log: seq<LogEntry>, done: set<Key>, e: LogEntry)
    requires LogCovers(cs, t, c, log, done)
    requires e.seqno == c && PayloadOf(LatestActive(ChainOf(cs, e.key), t)) == Some(e.payload)
    ensures LogCovers(cs, t, c, log + [e], done + {e.key})
  {
    forall k | k in done + {e.key} && LatestActive(ChainOf(cs, k), t).Some?
      ensures Logged(log + [e], k)
    {
      if k == e.key {
        assert e in log + [e];
      } else {
        var x :| x in log && x.key == k;
        assert x in log + [e];
      }
    }
  }

  class TxManager {
    var nextTxn: TxnId
    var nextSeq: SeqNo
    var activeTxns: set<TxnId>
    var lsm: Lsm
    var wal: seq<LogEntry>
    const vcm: VersionChainManager
    const locks: Locks.LockManager
    // For the proofs: the views of the open transactions, and the abstract past.
    ghost var handles: map<TxnId, Handle>
    ghost var hist: map<Key, History.KeyHistory>

    constructor (recovered: Lsm, recoveredSeq: SeqNo, ghost past: map<Key, History.KeyHistory>)
      ensures fresh(vcm) && fresh(locks) && fresh(locks.graph)
      ensures Valid() && wal == []
      ensures View() == State(map[], recovered, 1, recoveredSeq + 1, map[], map[], Locks.EMPTY, NoFlight, past)
    {
      nextTxn, nextSeq, activeTxns := 1, 1, {};
      lsm, wal := recovered, [];
      vcm := new VersionChainManager();
      locks := new Locks.LockManager();
      handles, hist := map[], past;
      new;
      RecoverSetSnapshot(recoveredSeq);
    }

    ghost predicate Valid()
      reads this
    {
      handles.Keys == activeTxns
    }

    // The engine state this object stands for, between two calls.
    ghost function View(): State
      reads this, vcm, locks, locks.graph
    {
      State(vcm.chains, lsm, nextTxn, nextSeq, handles, map[], locks.State(), NoFlight, hist)
    }

    // After replay the generator continues behind the last recovered number.
    method RecoverSetSnapshot(maxSeq: SeqNo)
      modifies this`nextSeq
      ensures nextSeq == if maxSeq == 0 then old(nextSeq) else maxSeq + 1
    {
      if maxSeq != 0 {
        nextSeq := maxSeq + 1;
      }
    }

    method BuildReadView(t: TxnId, policy: Policy) returns (v: ReadView)
      ensures v == ReadView(policy, t, nextTxn, if policy == ReadCommitted then {} else activeTxns)
    {
      if policy == ReadCommitted {
        return ReadView(ReadCommitted, t, nextTxn, {});
      }
      return ReadView(RepeatableRead, t, nextTxn, activeTxns);
    }

    method Begin(policy: Policy, validate: bool) returns (tx: Transaction)
      requires Valid()
      modifies this
      ensures Valid() && View() == DoBegin(old(View()), policy)
      ensures fresh(tx) && tx.mgr == this && tx.Open() && tx.txn == old(nextTxn) && tx.view.policy == policy
      ensures tx.validate == validate && tx.readSet == map[]
    {
      var t := nextTxn;
      nextTxn := nextTxn + 1;
      activeTxns := activeTxns + {t};
      var view := BuildReadView(t, policy);
      var lsmReadSeq := if nextSeq > 0 then nextSeq - 1 else 0;
      handles := handles[t := Handle(view, lsmReadSeq, {})];
      assert old(View()).prepared.Keys == {};
      tx := new Transaction(this, t, view, lsmReadSeq, validate);
    }

    method PrepareCommit(t: TxnId) returns (c: SeqNo)
      modifies this`nextSeq
      ensures c == old(nextSeq) && nextSeq == old(nextSeq) + 1
    {
      c := nextSeq;
      nextSeq := nextSeq + 1;
    }

    method Leave(t: TxnId)
      modifies this`activeTxns, this`handles
      ensures activeTxns == old(activeTxns) - {t} && handles == old(handles) - {t}
    {
      activeTxns := activeTxns - {t};
      handles := handles - {t};
    }

    // Writes picked items until one fails; `lsmOk` is the outcome of each write.
    method WriteToLsm(items: seq<(Key, Record)>, lsmOk: nat -> bool) returns (n: nat)
      modifies this`lsm
      ensures n <= |items| && lsm == WriteItems(old(lsm), items[..n])
      ensures (forall i | 0 <= i < n :: lsmOk(i)) && (n < |items| ==> !lsmOk(n))
    {
      n := 0;
      while n < |items| && lsmOk(n)
        invariant n <= |items| && lsm == WriteItems(old(lsm), items[..n])
        invariant forall i | 0 <= i < n :: lsmOk(i)
      {
        assert items[..n + 1][..n] == items[..n];
        lsm := Write(lsm, items[n].0, items[n].1.commit, items[n].1.payload);
        n := n + 1;
      }
    }

    // A failed LSM write ends the flush with nothing marked.
    method FlushCommittedToLSM(max: nat, lsmOk: nat -> bool) returns (ok: bool, ghost ks: seq<Key>, ghost n: nat)
      requires Valid()
      modifies this, vcm
      ensures Valid() && PicksEnough(old(vcm.chains), ks, max)
      ensures ok <==> forall i | 0 <= i < |PickFrom(old(vcm.chains), ks)| :: lsmOk(i)
      ensures ok ==> View() == WholeFlush(old(View()), ks)
      ensures !ok ==> n < |PickFrom(old(vcm.chains), ks)| && !lsmOk(n) && forall i | 0 <= i < n :: lsmOk(i)
      ensures !ok ==> View() == old(View()).(lsm := WriteItems(old(lsm), PickFrom(old(vcm.chains), ks)[..n]))
    {
      hide PicksEnough, PickFrom, WriteItems, FlushMarks, HistIn;
      var items;
      items, ks := vcm.PickCommittedNotFlushed(max);
      var written := WriteToLsm(items, lsmOk);
      n := written;
      if written < |items| {
        return false, ks, n;
      }
      assert items[..n] == items;
      vcm.MarkFlushed(Marks(items));
      ghost var goals := DoPick(old(View()), ks).flight.goals;
      hist := map k | k in hist :: if k in goals then hist[k].(flushed := goals[k]) else hist[k];
      ok := true;
    }

    method RunGC()
      requires Valid()
      modifies this, vcm
      ensures Valid() && View() == DoGc(old(View()))
    {
      vcm.GarbageCollect();
      hist := map k | k in hist :: hist[k].(dropped := CollectedTo(hist[k]));
    }

    // The column family's read at a snapshot; `tie` stands for where the tree's records lie.
    method GetAt(key: Key, snapshot: SeqNo, tie: Tie) returns (r: Option<Payload>)
      ensures r == SnapshotRead(View(), key, snapshot, tie)
    {
      r := vcm.GetVisibleBySnapshot(key, snapshot);
      if r == None {
        r := Read(lsm, key, snapshot, tie);
      }
    }

    method CreateSnapshot() returns (s: SeqNo)
      ensures s == Current(View())
    {
      s := if nextSeq > 0 then nextSeq - 1 else 0;
    }
  }

  class Transaction {
    const mgr: TxManager
    const txn: TxnId
    const view: ReadView
    const lsmReadSeq: SeqNo
    const validate: bool
    var readSet: ReadSet
    var touched: set<Key>
    var finished: bool

    constructor (mgr: TxManager, txn: TxnId, view: ReadView, lsmReadSeq: SeqNo, validate: bool)
      ensures this.mgr == mgr && this.txn == txn && this.view == view && this.lsmReadSeq == lsmReadSeq
      ensures this.validate == validate && readSet == map[] && touched == {} && !finished
    {
      this.mgr, this.txn, this.view, this.lsmReadSeq, this.validate := mgr, txn, view, lsmReadSeq, validate;
      readSet, touched, finished := map[], {}, false;
    }

    // The handle has not been committed or rolled back.
    ghost predicate Open()
      reads this, mgr
    {
      !finished && txn in mgr.handles && mgr.handles[txn] == Handle(view, lsmReadSeq, {})
    }

    // Every key this transaction has a pending write on is among `touched`.
    ghost predicate Tracked()
      reads this, mgr, mgr.vcm
    {
      forall k | LatestActive(ChainOf(mgr.vcm.chains, k), txn).Some? :: k in touched
    }

    // Put and Delete: take the key exclusively, then add a pending version. MustWait means
    // the calling thread is parked; it continues in ResumeWrite.
    method PutOrDelete(key: Key, payload: Payload) returns (out: Locks.Outcome)
      requires mgr.Valid() && Open() && txn !in mgr.locks.blocked && Tracked()
      modifies this, mgr, mgr.vcm, mgr.locks, mgr.locks.graph
      ensures mgr.Valid() && Open() && Tracked()
      ensures var s := old(mgr.View());
              var locked := s.(locks := Locks.AcquireStart(s.locks, key, txn, Locks.Exclusive).0);
              out == Locks.AcquireStart(s.locks, key, txn, Locks.Exclusive).1
              && mgr.View() == if out == Locks.Granted
                               then locked.(chains := Append(s.chains, key, NewActive(payload, txn)))
                               else locked
    {
      out := mgr.locks.Acquire(key, txn, Locks.Exclusive);
      if out == Locks.Granted {
        AddPending(key, payload);
      }
    }

    method ResumeWrite(key: Key, payload: Payload, timedOut: bool) returns (out: Locks.Outcome)
      requires mgr.Valid() && Open() && Tracked() && key in mgr.locks.table
      requires txn in mgr.locks.blocked && mgr.locks.blocked[txn] == Locks.Waiting(key, Locks.Exclusive)
      modifies this, mgr, mgr.vcm, mgr.locks, mgr.locks.graph
      ensures mgr.Valid() && Open() && Tracked()
      ensures var s := old(mgr.View());
              var woken := s.(locks := Locks.AcquireWake(s.locks, txn, timedOut).0);
              out == Locks.AcquireWake(s.locks, txn, timedOut).1
              && mgr.View() == if out == Locks.Granted
                               then woken.(chains := Append(s.chains, key, NewActive(payload, txn)))
                               else woken
    {
      out := mgr.locks.ResumeAcquire(key, txn, Locks.Exclusive, timedOut);
      if out == Locks.Granted {
        AddPending(key, payload);
      }
    }

    method AddPending(key: Key, payload: Payload)
      requires Tracked()
      modifies this`touched, mgr.vcm
      ensures Tracked() && mgr.vcm.chains == Append(old(mgr.vcm.chains), key, NewActive(payload, txn))
    {
      touched := touched + {key};
      match payload {
        case Put(value) => mgr.vcm.PutActive(key, value, txn);
        case Delete => mgr.vcm.DeleteActive(key, txn);
      }
    }

    method ReadSeq() returns (q: SeqNo)
      requires Open()
      ensures q == LsmReadSeq(mgr.View(), mgr.handles[txn])
    {
      if view.policy == ReadCommitted {
        q := mgr.CreateSnapshot();
      } else {
        q := lsmReadSeq;
      }
    }

    method Get(key: Key, tie: Tie) returns (r: Option<Payload>)
      requires Open()
      modifies this`readSet
      ensures r == TxnRead(mgr.View(), key, txn, tie)
      ensures readSet == if validate then NoteRead(old(readSet), key, PayloadOf(Visible(ChainOf(mgr.vcm.chains, key), view)), r)
                         else old(readSet)
    {
      hide Visible, Read;
      r := mgr.vcm.GetVisible(key, view);
      if r == Some(Delete) {
        if validate {
          readSet := readSet[key := None];
        }
      } else if r.Some? {
        if validate {
          readSet := readSet[key := Some(r.value.value)];
        }
      } else {
        var q := ReadSeq();
        r := Read(mgr.lsm, key, q, tie);
        if validate && r.Some? && r.value.Put? {
          readSet := readSet[key := Some(r.value.value)];
        }
      }
    }

    // Compares what was read with what the chains answer now.
    method ValidateReads() returns (ok: bool)
      ensures ok <==> Validates(mgr.vcm.chains, view, readSet)
    {
      hide Visible;
      var todo := readSet.Keys;
      while todo != {}
        invariant todo <= readSet.Keys
        invariant forall k | k in readSet && k !in todo ::
          ValueOf(PayloadOf(Visible(ChainOf(mgr.vcm.chains, k), view))) == readSet[k]
      {
        var k :| k in todo;
        var now := mgr.vcm.GetVisible(k, view);
        var found := now.Some? && now.value.Put?;
        if readSet[k].Some? != found || (found && readSet[k].value != now.value.value) {
          return false;
        }
        todo := todo - {k};
      }
      ok := true;
    }

    // Logs the latest pending write of every touched key; `logOk` is each write's outcome.
    method WriteLog(c: SeqNo, logOk: Key -> bool) returns (ok: bool)
      requires Tracked()
      modifies mgr`wal
      ensures old(mgr.wal) <= mgr.wal
      ensures ok <==> AllLogged(mgr.vcm.chains, txn, logOk)
      ensures ok ==> CommitLog(mgr.vcm.chains, txn, c, mgr.wal[|old(mgr.wal)|..])
    {
      hide LogCovers, LatestActive, ChainOf;
      var start := |mgr.wal|;
      var todo := touched;
      assert touched - todo == {} && mgr.wal[start..] == [];
      NothingLogged(mgr.vcm.chains, txn, c);
      while todo != {}
        invariant todo <= touched && old(mgr.wal) <= mgr.wal
        invariant LogCovers(mgr.vcm.chains, txn, c, mgr.wal[start..], touched - todo)
        invariant forall k | k in touched - todo && LatestActive(ChainOf(mgr.vcm.chains, k), txn).Some? :: logOk(k)
      {
        var k :| k in todo;
        var rec := mgr.vcm.GetLatestActiveForTxn(k, txn);
        if rec.Some? {
          if !logOk(k) {
            return false;
          }
          var entry := LogEntry(k, rec.value.payload, c);
          ghost var before := mgr.wal[start..];
          mgr.wal := mgr.wal + [entry];
          assert mgr.wal[start..] == before + [entry];
          LogGrows(mgr.vcm.chains, txn, c, before, touched - todo, entry);
        } else {
          NothingToLog(mgr.vcm.chains, txn, c, mgr.wal[start..], touched - todo, k);
        }
        assert touched - (todo - {k}) == (touched - todo) + {k};
        todo := todo - {k};
      }
      assert touched - todo == touched;
      CoversAll(mgr.vcm.chains, txn, c, mgr.wal[start..], touched);
      return true;
    }

    // The pending versions become committed ones with number c, and the transaction leaves.
    method Publish(c: SeqNo)
      requires mgr.Valid() && Open()
      modifies this, mgr, mgr.vcm, mgr.locks, mgr.locks.graph
      ensures mgr.Valid() && finished && mgr.wal == old(mgr.wal)
      ensures mgr.View() == DoPublish(old(mgr.View()).(prepared := map[txn := c]), txn)
    {
      hide NewVersions, ChainOf, HistIn, CommitAll, DoPublish, Locks.ReleaseAll;
      ghost var chains := mgr.vcm.chains;
      mgr.vcm.MarkTransactionCommitted(txn, c);
      mgr.hist := map k | k in mgr.hist.Keys + chains.Keys ::
        var h := HistIn(mgr.hist, k);
        h.(versions := h.versions + NewVersions(ChainOf(chains, k), txn, c));
      mgr.Leave(txn);
      mgr.locks.ReleaseEvery(txn);
      touched, finished := {}, true;
      PublishIs(old(mgr.View()), txn, c);
    }

    // A commit that fails validation changes nothing, and the transaction stays open.
    method Commit(logOk: Key -> bool, syncOk: bool) returns (r: CommitResult)
      requires mgr.Valid() && Open() && Tracked()
      modifies this, mgr, mgr.vcm, mgr.locks, mgr.locks.graph
      ensures mgr.Valid() && mgr.View() == AfterCommit(old(mgr.View()), txn, r)
      ensures r == ReadsChanged <==> validate && !Validates(old(mgr.vcm.chains), view, old(readSet))
      ensures if r == ReadsChanged then Open() && mgr.wal == old(mgr.wal) else finished && old(mgr.wal) <= mgr.wal
      ensures r != ReadsChanged ==> (r == Done <==> syncOk && AllLogged(old(mgr.vcm.chains), txn, logOk))
      ensures r == Done ==>
        CommitLog(old(mgr.vcm.chains), txn, old(mgr.nextSeq), mgr.wal[|old(mgr.wal)|..])
    {
      hide Validates, AllLogged, CommitLog, AfterCommit, DoPublish, Finish, AbortAll;
      AfterCommitIs(mgr.View(), txn);
      if validate {
        var same := ValidateReads();
        if !same {
          return ReadsChanged;
        }
      }
      var c := mgr.PrepareCommit(txn);
      var ok := WriteLog(c, logOk);
      if ok && syncOk {
        Publish(c);
        r := Done;
      } else {
        Abort();
        r := LogFailed;
      }
    }

    method Rollback()
      requires mgr.Valid() && Open()
      modifies this, mgr, mgr.vcm, mgr.locks, mgr.locks.graph
      ensures mgr.Valid() && finished && mgr.wal == old(mgr.wal)
      ensures mgr.View() == Finish(old(mgr.View()), txn).(chains := AbortAll(old(mgr.vcm.chains), txn))
    {
      Abort();
    }

    method Abort()
      requires mgr.Valid()
      modifies this, mgr, mgr.vcm, mgr.locks, mgr.locks.graph
      ensures mgr.Valid() && finished && mgr.wal == old(mgr.wal)
      ensures mgr.View() == Finish(old(mgr.View()), txn).(chains := AbortAll(old(mgr.vcm.chains), txn))
    {
      mgr.vcm.MarkTransactionAborted(txn);
      mgr.Leave(txn);
      mgr.locks.ReleaseEvery(txn);
      touched, finished := {}, true;
    }
  }
}
