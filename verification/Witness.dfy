/** Reachable states in which the promises of the engine do not hold, one for each condition. */
module Witnesses {
  import opened Types
  import opened VersionChain
  import opened Lsm
  import opened History
  import opened Engine
  import opened ChainLemmas
  import opened FlushLemmas
  import opened EngineInvariant
  import opened EngineTheorems
  import opened Stability
  import opened Durability
  import opened Transactions
  import Locks

  const FRESH := State(map[], EMPTY_LSM, 1, 1, map[], map[], Locks.EMPTY, NoFlight, map[])

  lemma FreshIsInit()
    ensures Init(FRESH) && Inv(FRESH)
  {
    InitInv(FRESH);
  }

  // ---- a transaction writing one key, step by step ----

  predicate Idle(s: State) {
    && s.txns == map[] && s.prepared == map[] && s.flight == NoFlight
    && s.locks.blocked == map[] && s.locks.aborted == {} && s.locks.graph == map[]
    && forall k | k in s.locks.table :: s.locks.table[k] == Locks.Entry([], [])
  }

  function Locked(l: Locks.LockState, k: Key, t: TxnId): Locks.LockState {
    l.(table := l.table[k := Locks.Entry([Locks.Request(t, Locks.Exclusive)], [])])
  }

  function AppendAll(cs: Chains, k: Key, t: TxnId, ps: seq<Payload>): Chains {
    if ps == [] then cs else Append(AppendAll(cs, k, t, ps[..|ps| - 1]), k, NewActive(ps[|ps| - 1], t))
  }

  function Versions(ps: seq<Payload>, c: SeqNo, t: TxnId): (vs: seq<Version>)
    ensures |vs| == |ps| && forall i | 0 <= i < |ps| :: vs[i] == Version(ps[i], c, t)
  {
    seq(|ps|, i requires 0 <= i < |ps| => Version(ps[i], c, t))
  }

  // Begun, the key locked, the payloads pending.
  function Writing(s: State, k: Key, ps: seq<Payload>): State {
    var t := s.nextTxn;
    DoBegin(s, ReadCommitted).(locks := Locked(s.locks, k, t), chains := AppendAll(s.chains, k, t, ps))
  }

  lemma {:induction false} WritesGoOn(s: State, k: Key, t: TxnId, ps: seq<Payload>)
    requires Usable(s, t) && Locks.Holds(s.locks, k, t, Locks.Exclusive)
    ensures Leads(s, s.(chains := AppendAll(s.chains, k, t, ps)))
  {
    if ps == [] {
      RunNowhere(s);
    } else {
      var init := ps[..|ps| - 1];
      var mid := s.(chains := AppendAll(s.chains, k, t, init));
      WritesGoOn(s, k, t, init);
      OneStep(mid, DoWrite(t, k, ps[|ps| - 1]));
      RunJoins(s, mid, s.(chains := AppendAll(s.chains, k, t, ps)));
    }
  }

  lemma WritingIsARun(s: State, k: Key, ps: seq<Payload>)
    requires Idle(s)
    ensures Leads(s, Writing(s, k, ps))
  {
    hide AppendAll;
    var t, begun := s.nextTxn, DoBegin(s, ReadCommitted);
    var locked := begun.(locks := Locked(s.locks, k, t));
    OneStep(s, Begin(ReadCommitted));
    OneStep(begun, LockStep(Locks.Try(k, t, Locks.Exclusive)));
    assert Apply(begun, LockStep(Locks.Try(k, t, Locks.Exclusive))) == locked by {
      assert Locks.EntryOf(s.locks, k) == Locks.Entry([], []);
      assert [] + [Locks.Request(t, Locks.Exclusive)] == [Locks.Request(t, Locks.Exclusive)];
    }
    RunJoins(s, begun, locked);
    WritesGoOn(locked, k, t, ps);
    RunJoins(s, locked, Writing(s, k, ps));
  }

  lemma {:induction false} AppendedVersions(cs: Chains, k: Key, t: TxnId, ps: seq<Payload>, c: SeqNo)
    requires NewVersions(ChainOf(cs, k), t, c) == []
    ensures NewVersions(ChainOf(AppendAll(cs, k, t, ps), k), t, c) == Versions(ps, c, t)
  {
    if ps != [] {
      var init, last := ps[..|ps| - 1], ps[|ps| - 1];
      AppendedVersions(cs, k, t, init, c);
      var chain := ChainOf(AppendAll(cs, k, t, init), k);
      assert (chain + [NewActive(last, t)])[..|chain|] == chain;
      assert Versions(ps, c, t) == Versions(init, c, t) + [Version(last, c, t)];
    }
  }

  // The whole transaction.
  function Committed(s: State, k: Key, ps: seq<Payload>): State {
    DoPublish(Numbered(s, k, ps), s.nextTxn)
  }

  function Numbered(s: State, k: Key, ps: seq<Payload>): State {
    var w := Writing(s, k, ps);
    w.(prepared := w.prepared[s.nextTxn := s.nextSeq], nextSeq := s.nextSeq + 1)
  }

  lemma CommitIsARun(s: State, k: Key, ps: seq<Payload>)
    requires Idle(s)
    ensures Leads(s, Committed(s, k, ps)) && Idle(Committed(s, k, ps)) && Committed(s, k, ps).lsm == s.lsm
    ensures Committed(s, k, ps).nextSeq == s.nextSeq + 1
  {
    hide AppendAll, NewVersions, CommitAll;
    var t, w, n := s.nextTxn, Writing(s, k, ps), Numbered(s, k, ps);
    WritingIsARun(s, k, ps);
    OneStep(w, Prepare(t));
    RunJoins(s, w, n);
    OneStep(n, Publish(t));
    RunJoins(s, n, Committed(s, k, ps));
    Released(s.locks, k, t);
  }

  lemma Released(l: Locks.LockState, k: Key, t: TxnId)
    requires l.graph == map[] && forall x | x in l.table :: l.table[x] == Locks.Entry([], [])
    ensures var r := Locks.ReleaseAll(Locked(l, k, t), t);
            r.graph == map[] && r.blocked == l.blocked && r.aborted == l.aborted
            && forall x | x in r.table :: r.table[x] == Locks.Entry([], [])
  {
    var mine := [Locks.Request(t, Locks.Exclusive)];
    assert mine[1..] == [] && Locks.DropAll(mine, t) == [] + Locks.DropAll([], t) == [];
  }

  lemma CommitAdds(s: State, k: Key, ps: seq<Payload>)
    requires Inv(s) && Idle(s)
    ensures HistOf(Committed(s, k, ps), k)
         == HistOf(s, k).(versions := HistOf(s, k).versions + Versions(ps, s.nextSeq, s.nextTxn))
  {
    hide Inv, AppendAll, CommitAll;
    var t := s.nextTxn;
    InvKey(s, k);
    NobodyOwns(s, k, t);
    UnownedChainUntouched(s, t, s.nextSeq, k);
    AppendedVersions(s.chains, k, t, ps, s.nextSeq);
    HistOfPublish(Numbered(s, k, ps), t, k);
  }

  lemma NobodyOwns(s: State, k: Key, t: TxnId)
    requires KeyInv(s, k) && s.txns == map[]
    ensures !Owns(s, k, t)
  {
    forall r | r in Live(ChainOf(s.chains, k))
      ensures r.state != Active
    {
      assert r.state == Active ==> Owned(s, k, r);
    }
  }

  // ---- flushed and collected ----

  lemma FlushAll(s: State, k: Key)
    requires s.flight == NoFlight
    ensures Leads(s, WholeFlush(s, [k])) && WholeFlush(s, [k]).flight == NoFlight
    ensures HistOf(s, k).flushed <= |HistOf(s, k).versions| && k in s.hist ==>
              HistOf(WholeFlush(s, [k]), k) == HistOf(s, k).(flushed := |HistOf(s, k).versions|)
  {
    hide PickFrom, WriteItems, FlushMarks;
    WholeFlushIsARun(s, [k]);
    assert k in [k];
  }

  // What two such transactions, a flush and a collection leave: only the newest version of the
  // key is still in its chain.
  function Settled(k: Key, first: seq<Payload>, second: seq<Payload>): State {
    DoGc(WholeFlush(Committed(Committed(FRESH, k, first), k, second), [k]))
  }

  lemma SettledIsReachable(k: Key, first: seq<Payload>, p: Payload)
    requires first != []
    ensures Leads(FRESH, Settled(k, first, [p])) && Inv(Settled(k, first, [p]))
    ensures HistOf(Settled(k, first, [p]), k)
         == KeyHistory(Versions(first, 1, 1) + [Version(p, 2, 2)], |first|, |first| + 1)
  {
    hide Inv, Committed, WholeFlush, DoGc, Idle, Leads;
    FreshIsInit();
    var a := Committed(FRESH, k, first);
    var b := Committed(a, k, [p]);
    var c := WholeFlush(b, [k]);
    StartsIdle();
    CommitIsARun(FRESH, k, first);
    LeadsKeepsInv(FRESH, a);
    CommitAdds(FRESH, k, first);
    NextNumbers(FRESH, k, first);
    CommitIsARun(a, k, [p]);
    RunJoins(FRESH, a, b);
    LeadsKeepsInv(a, b);
    CommitAdds(a, k, [p]);
    IdleHasNoFlight(b);
    FlushAll(b, k);
    RunJoins(FRESH, b, c);
    CollectNow(c, k);
    RunJoins(FRESH, c, Settled(k, first, [p]));
    LeadsKeepsInv(FRESH, Settled(k, first, [p]));
    assert [] + Versions(first, 1, 1) == Versions(first, 1, 1);
    assert Versions([p], 2, 2) == [Version(p, 2, 2)];
    HasHistory(a, k, [p]);
  }

  lemma StartsIdle()
    ensures Idle(FRESH) && HistOf(FRESH, Key([])) == NO_HISTORY && forall k :: HistOf(FRESH, k) == NO_HISTORY
  {
  }

  lemma IdleHasNoFlight(s: State)
    requires Idle(s)
    ensures s.flight == NoFlight
  {
  }

  lemma NextNumbers(s: State, k: Key, ps: seq<Payload>)
    ensures Committed(s, k, ps).nextSeq == s.nextSeq + 1 && Committed(s, k, ps).nextTxn == s.nextTxn + 1
  {
  }

  lemma HasHistory(s: State, k: Key, ps: seq<Payload>)
    requires ps != []
    ensures k in Committed(s, k, ps).hist
  {
    hide NewVersions, CommitAll;
  }

  lemma CollectNow(s: State, k: Key)
    ensures Leads(s, DoGc(s)) && HistOf(DoGc(s), k) == HistOf(s, k).(dropped := CollectedTo(HistOf(s, k)))
  {
    hide CollectAll;
    OneStep(s, Gc);
  }

  lemma LeadsKeepsInv(s: State, s': State)
    requires Inv(s) && Leads(s, s')
    ensures Inv(s')
  {
    hide Inv;
    var steps :| Run(s, steps, s');
    RunKeepsInv(s, steps, s');
  }

  // ---- writing a key twice ----

  // A transaction that writes a key in ways the tree does not read back right, and another
  // that writes it once more: flushed and collected, a snapshot between the two misreads it.
  lemma UnfaithfulIsMisread(k: Key, first: seq<Payload>, p: Payload)
    requires first != [] && !Faithful(first)
    ensures var s := Settled(k, first, [p]);
            && Leads(FRESH, s) && Init(FRESH)
            && HistRead(HistOf(s, k).versions, 1) == Some(first[|first| - 1]) && !ReadsHistory(s, k, 1)
  {
    hide Inv, Settled, ReadsHistory, Faithful;
    var s := Settled(k, first, [p]);
    FreshIsInit();
    SettledIsReachable(k, first, p);
    SnapshotReadExact(s, k, 1);
    var vs := Versions(first, 1, 1);
    NewestOfTwo(vs, Version(p, 2, 2));
    GroupOfVersions(first, 1, 1);
    GroupOfOne(vs, Version(p, 2, 2), 1);
    assert Group(vs, 1) + [] == first;
  }

  lemma NewestOfTwo(vs: seq<Version>, v: Version)
    requires vs != [] && vs[|vs| - 1].commit <= 1 < v.commit
    ensures NewestIndex(vs + [v], 1) == |vs| - 1
  {
    assert (vs + [v])[..|vs|] == vs;
  }

  lemma {:induction false} GroupOfVersions(ps: seq<Payload>, c: SeqNo, t: TxnId)
    ensures Group(Versions(ps, c, t), c) == ps
  {
    if ps != [] {
      var init := ps[..|ps| - 1];
      GroupOfVersions(init, c, t);
      assert Versions(ps, c, t)[..|init|] == Versions(init, c, t);
      assert ps == init + [ps[|ps| - 1]];
    }
  }

  // Deleted, then put: once the tombstone wins, the value put last is gone. Put twice: the
  // first value comes back.
  lemma DeleteThenPutIsMisread(k: Key, v: Value, w: Value)
    requires v != w
    ensures !ReadsHistory(Settled(k, [Delete, Put(v)], [Put(w)]), k, 1)
    ensures !ReadsHistory(Settled(k, [Put(v), Put(w)], [Put(w)]), k, 1)
  {
    hide Settled, ReadsHistory;
    var mixed, twice := [Delete, Put(v)], [Put(v), Put(w)];
    assert mixed[0].Delete? && mixed[1].Put?;
    FaithfulMeans(mixed);
    UnfaithfulIsMisread(k, mixed, Put(w));
    FaithfulMeans(twice);
    assert twice[0] != twice[1];
    UnfaithfulIsMisread(k, twice, Put(w));
  }

  // Put, then deleted, and flushed: replaying the commit's one log record, the deletion, over
  // the flushed tree leaves the value, while over the tree of the start it gives the deletion.
  lemma ReplayOverFlushedMisreads(k: Key, v: Value)
    ensures var s := WholeFlush(Committed(FRESH, k, [Put(v), Delete]), [k]);
            var log := [LogEntry(k, Delete, 1)];
            && Leads(FRESH, s) && HistRead(HistOf(s, k).versions, 1) == Some(Delete)
            && Read(Recover(s.lsm, log), k, 1, ValueWins) == Some(Put(v))
            && Read(Recover(EMPTY_LSM, log), k, 1, ValueWins) == Some(Delete)
  {
    hide Inv, Committed, WholeFlush, Recover, Group;
    var ps, log := [Put(v), Delete], [LogEntry(k, Delete, 1)];
    var s := WholeFlush(Committed(FRESH, k, ps), [k]);
    FlushedOnce(k, ps);
    InvKey(s, k);
    GroupOfVersions(ps, 1, 1);
    assert CommitFlushed(s.lsm, k, HistOf(s, k).versions, 0);
    OneDeletion(s.lsm, k);
    OneDeletion(EMPTY_LSM, k);
  }

  // One transaction's writes of a key, flushed.
  lemma FlushedOnce(k: Key, ps: seq<Payload>)
    requires ps != []
    ensures var s := WholeFlush(Committed(FRESH, k, ps), [k]);
            Leads(FRESH, s) && Inv(s) && HistOf(s, k) == KeyHistory(Versions(ps, 1, 1), 0, |ps|)
  {
    hide Inv, Committed, WholeFlush, Idle, Leads;
    var c := Committed(FRESH, k, ps);
    FreshIsInit();
    StartsIdle();
    CommitIsARun(FRESH, k, ps);
    LeadsKeepsInv(FRESH, c);
    CommitAdds(FRESH, k, ps);
    assert [] + Versions(ps, 1, 1) == Versions(ps, 1, 1);
    HasHistory(FRESH, k, ps);
    IdleHasNoFlight(c);
    FlushAll(c, k);
    RunJoins(FRESH, c, WholeFlush(c, [k]));
    LeadsKeepsInv(c, WholeFlush(c, [k]));
  }

  lemma OneDeletion(l: Lsm, k: Key)
    requires (k, 1) in l.cells ==> l.cells[(k, 1)].Put?
    ensures Read(Recover(l, [LogEntry(k, Delete, 1)]), k, 1, ValueWins) == if (k, 1) in l.cells then Some(l.cells[(k, 1)]) else Some(Delete)
  {
    var log := [LogEntry(k, Delete, 1)];
    assert log[..|log| - 1] == [] && Recover(l, []) == l;
  }

  // ---- a commit in flight when a repeatable-read transaction begins ----

  function Straddling(k: Key, v: Value): State {
    DoPublish(DoBegin(Numbered(FRESH, k, [Put(v)]), RepeatableRead), 1)
  }

  lemma StraddlingIsReachable(k: Key, v: Value)
    ensures Leads(FRESH, Straddling(k, v))
  {
    hide AppendAll, CommitAll, NewVersions, Leads;
    var ps := [Put(v)];
    var w, n := Writing(FRESH, k, ps), Numbered(FRESH, k, ps);
    var begun := DoBegin(n, RepeatableRead);
    StartsIdle();
    WritingIsARun(FRESH, k, ps);
    OneStep(w, Prepare(1));
    RunJoins(FRESH, w, n);
    OneStep(n, Begin(RepeatableRead));
    RunJoins(FRESH, n, begun);
    OneStep(begun, Publish(1));
    RunJoins(FRESH, begun, Straddling(k, v));
  }

  // It does not see that commit in the chain, and so reads nothing; after a flush the tree
  // shows it.
  lemma StraddlingReadChanges(k: Key, v: Value, tie: Tie)
    ensures var s := Straddling(k, v);
            var s' := WholeFlush(s, [k]);
            && Leads(FRESH, s) && Leads(s, s') && 2 in s.txns && 2 in s'.txns && s.txns[2].view.policy == RepeatableRead
            && TxnRead(s, k, 2, tie) == None && TxnRead(s', k, 2, tie) == Some(Put(v))
  {
    hide Straddling, WholeFlush, Leads;
    var s := Straddling(k, v);
    StraddlingIsReachable(k, v);
    StraddlingChain(k, v);
    FlushAll(s, k);
    var r := Record(Put(v), 1, VersionChain.Committed, 1, false);
    HiddenRecord(r, s.txns[2].view);
    FlushedOne(s, k, r);
    HiddenRecord(r.(flushed := true), s.txns[2].view);
  }

  lemma StraddlingChain(k: Key, v: Value)
    ensures ChainOf(Straddling(k, v).chains, k) == [Record(Put(v), 1, VersionChain.Committed, 1, false)]
    ensures Straddling(k, v).lsm == EMPTY_LSM && Straddling(k, v).flight == NoFlight
    ensures 2 in Straddling(k, v).txns && Straddling(k, v).txns[2].readSeq == 1
    ensures Straddling(k, v).txns[2].view == ReadView(RepeatableRead, 2, 3, {1, 2})
  {
    hide NewVersions;
    var r := NewActive(Put(v), 1);
    var cs := AppendAll(map[], k, 1, [Put(v)]);
    AppendOne(map[], k, 1, Put(v));
    assert [] + [r] == [r] && ChainOf(cs, k) == [r];
    ChainOfCommitAll(cs, 1, 1, k);
    assert CommitChain([r], 1, 1) == [CommitRecord(r, 1, 1)];
  }

  lemma AppendOne(cs: Chains, k: Key, t: TxnId, p: Payload)
    ensures AppendAll(cs, k, t, [p]) == Append(cs, k, NewActive(p, t))
  {
    var ps := [p];
    assert ps[..|ps| - 1] == [];
  }

  lemma HiddenRecord(r: Record, view: ReadView)
    requires !Sees(view, r)
    ensures Visible([r], view) == None
  {
    assert [r][..0] == [];
  }

  lemma FlushedOne(s: State, k: Key, r: Record)
    requires ChainOf(s.chains, k) == [r] && NeedsFlush(r) && r.commit == 1 && s.lsm == EMPTY_LSM && r.payload.Put?
    ensures ChainOf(WholeFlush(s, [k]).chains, k) == [r.(flushed := true)]
    ensures forall tie :: Read(WholeFlush(s, [k]).lsm, k, 1, tie) == Some(r.payload)
    ensures WholeFlush(s, [k]).txns == s.txns && WholeFlush(s, [k]).nextSeq == s.nextSeq
  {
    hide PickFrom, WriteItems, FlushMarks;
    var items := PickFrom(s.chains, [k]);
    PickOne(s.chains, k, r);
    WriteOne(k, r);
    MarkOne(s.chains, k, r);
  }

  lemma PickOne(cs: Chains, k: Key, r: Record)
    requires ChainOf(cs, k) == [r] && NeedsFlush(r)
    ensures PickFrom(cs, [k]) == [(k, r)]
  {
    var ks, chain := [k], [r];
    assert ks[..|ks| - 1] == [] && chain[..|chain| - 1] == [];
    assert Unflushed(chain) == [r] + Unflushed([]) == [r];
    assert PickFrom(cs, ks) == PickFrom(cs, []) + Tag(k, [r]);
  }

  lemma WriteOne(k: Key, r: Record)
    requires r.commit == 1 && r.payload.Put?
    ensures WriteItems(EMPTY_LSM, [(k, r)]) == Write(EMPTY_LSM, k, 1, r.payload)
    ensures forall tie :: Read(Write(EMPTY_LSM, k, 1, r.payload), k, 1, tie) == Some(r.payload)
  {
    var items := [(k, r)];
    assert items[..|items| - 1] == [];
  }

  lemma MarkOne(cs: Chains, k: Key, r: Record)
    requires ChainOf(cs, k) == [r] && NeedsFlush(r) && r.commit == 1
    ensures ChainOf(FlushMarks(cs, Marks([(k, r)])), k) == [r.(flushed := true)]
  {
    var marks := Marks([(k, r)]);
    MarksOneByOne(cs, marks, k);
    assert marks[0] == (k, 1);
  }
}
