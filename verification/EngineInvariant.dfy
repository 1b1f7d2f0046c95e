/** Every step of the engine keeps its invariant. */
module EngineInvariant {
  import opened Types
  import opened VersionChain
  import opened Lsm
  import opened History
  import opened Engine
  import opened ChainLemmas
  import opened FlushLemmas
  import Locks

  // ---- who owns the active records ----

  // Exclusive locks leave room for one writer: all active records of a key are one transaction's.
  lemma OneWriter(s: State, k: Key, a: Record, b: Record)
    requires Locks.Inv(s.locks) && Owned(s, k, a) && Owned(s, k, b)
    ensures a.txn == b.txn
  {
    Locks.ExclusiveLeavesNoRoom(s.locks, k, a.txn, b.txn, Locks.Exclusive);
  }

  // A transaction with an active record on a key owns all of the key's active records.
  predicate Owns(s: State, k: Key, t: TxnId) {
    exists r :: r in Live(ChainOf(s.chains, k)) && r.state == Active && r.txn == t
  }

  predicate AllActiveBy(live: Chain, t: TxnId) {
    forall r | r in live && r.state == Active :: r.txn == t
  }

  lemma OwnerOwnsAll(s: State, k: Key, t: TxnId)
    requires Locks.Inv(s.locks) && OwnerInv(s, k) && Owns(s, k, t)
    ensures AllActiveBy(Live(ChainOf(s.chains, k)), t)
  {
    var live := Live(ChainOf(s.chains, k));
    var a :| a in live && a.state == Active && a.txn == t;
    forall b | b in live && b.state == Active
      ensures b.txn == t
    {
      OneWriter(s, k, a, b);
    }
  }

  // ---- one key, step by step ----

  lemma LockStepKeepsKey(s: State, l: Locks.Step, k: Key)
    requires Inv(s) && Enabled(s, LockStep(l))
    ensures KeyInv(Apply(s, LockStep(l)), k)
  {
    hide FlightInv, ViewsAgree, ViewInv, Live;
    var s' := Apply(s, LockStep(l));
    assert KeyInv(s, k);
    forall r | r in Live(ChainOf(s.chains, k)) && r.state == Active
      ensures Owned(s', k, r)
    {
      assert Owned(s, k, r);
      Locks.LocksPersist(s.locks, l, k, r.txn, Locks.Exclusive);
    }
  }

  lemma AppendKeepsLive(live: Chain, h: KeyHistory, p: Payload, t: TxnId)
    requires LiveInv(live, h)
    ensures LiveInv(live + [NewActive(p, t)], h)
  {
  }

  // A step that leaves a key and its writers alone.
  lemma KeyFrame(s: State, s': State, k: Key)
    requires KeyInv(s, k)
    requires ChainOf(s'.chains, k) == ChainOf(s.chains, k) && HistOf(s', k) == HistOf(s, k)
    requires s'.lsm == s.lsm && s'.locks == s.locks && s'.txns == s.txns && s'.prepared == s.prepared
    requires s'.nextSeq == s.nextSeq && s'.nextTxn == s.nextTxn
    ensures KeyInv(s', k)
  {
    forall r | r in Live(ChainOf(s'.chains, k)) && r.state == Active
      ensures Owned(s', k, r)
    {
      assert Owned(s, k, r);
    }
  }

  lemma WriteKeepsWrittenKey(s: State, t: TxnId, k: Key, p: Payload)
    requires KeyInv(s, k) && Enabled(s, DoWrite(t, k, p))
    ensures KeyInv(s.(chains := Append(s.chains, k, NewActive(p, t))), k)
  {
    hide Live, CellInv, LiveInv;
    var s' := s.(chains := Append(s.chains, k, NewActive(p, t)));
    var live := Live(ChainOf(s.chains, k));
    LiveOfAppend(ChainOf(s.chains, k), NewActive(p, t));
    AppendKeepsLive(live, HistOf(s, k), p, t);
    forall r | r in Live(ChainOf(s'.chains, k)) && r.state == Active
      ensures Owned(s', k, r)
    {
      assert r in live ==> Owned(s, k, r);
    }
  }

  lemma WriteKeepsKey(s: State, t: TxnId, key: Key, p: Payload, k: Key)
    requires KeyInv(s, k) && Enabled(s, DoWrite(t, key, p))
    ensures KeyInv(Apply(s, DoWrite(t, key, p)), k)
  {
    if k == key {
      WriteKeepsWrittenKey(s, t, k, p);
    } else {
      KeyFrame(s, Apply(s, DoWrite(t, key, p)), k);
    }
  }

  lemma PrepareKeepsKey(s: State, t: TxnId, k: Key)
    requires Inv(s) && Enabled(s, Prepare(t))
    ensures KeyInv(Apply(s, Prepare(t)), k)
  {
    assert KeyInv(s, k);
  }

  lemma BeginKeepsKey(s: State, policy: Policy, k: Key)
    requires Inv(s)
    ensures KeyInv(Apply(s, Begin(policy)), k)
  {
    assert KeyInv(s, k);
  }

  lemma ReleaseSparesOthers(s: State, t: TxnId, k: Key, u: TxnId)
    requires u != t && Locks.Holds(s.locks, k, u, Locks.Exclusive)
    ensures Locks.Holds(Locks.ReleaseAll(s.locks, t), k, u, Locks.Exclusive)
  {
    Locks.DropAllIs(Locks.EntryOf(s.locks, k).holders, t);
  }

  // What a commit or an abort leaves of a chain t does not own.
  lemma UnownedChainUntouched(s: State, t: TxnId, c: SeqNo, k: Key)
    requires KeyInv(s, k) && !Owns(s, k, t)
    ensures Live(CommitChain(ChainOf(s.chains, k), t, c)) == Live(ChainOf(s.chains, k))
    ensures Live(AbortChain(ChainOf(s.chains, k), t)) == Live(ChainOf(s.chains, k))
    ensures NewVersions(ChainOf(s.chains, k), t, c) == []
  {
    var chain := ChainOf(s.chains, k);
    var live := Live(chain);
    forall i | 0 <= i < |live|
      ensures live[i].state != Active || live[i].txn != t
    {
      assert live[i] in live;
    }
    LiveOfCommit(chain, t, c);
    assert CommitChain(live, t, c) == live;
    LiveOfAbort(chain, t);
    assert AbortChain(live, t) == live;
    LiveHasNoAborted(chain);
    LiveIdentity(live);
    NewVersionsInLive(chain, t, c);
    NoNewVersions(live, t, c);
  }

  lemma ChainOfCommitAll(cs: Chains, t: TxnId, c: SeqNo, k: Key)
    ensures ChainOf(CommitAll(cs, t, c), k) == CommitChain(ChainOf(cs, k), t, c)
    ensures ChainOf(AbortAll(cs, t), k) == AbortChain(ChainOf(cs, k), t)
  {
  }

  lemma OthersStayOwners(s: State, s': State, t: TxnId, k: Key)
    requires KeyInv(s, k) && !Owns(s, k, t)
    requires s'.txns == s.txns - {t} && s'.prepared == s.prepared - {t}
    requires s'.locks == Locks.ReleaseAll(s.locks, t)
    requires Live(ChainOf(s'.chains, k)) == Live(ChainOf(s.chains, k)) && HistOf(s', k) == HistOf(s, k)
    ensures OwnerInv(s', k)
  {
    forall r | r in Live(ChainOf(s.chains, k)) && r.state == Active
      ensures Owned(s', k, r)
    {
      assert Owned(s, k, r);
      ReleaseSparesOthers(s, t, k, r.txn);
    }
  }

  lemma AbandonKeepsKey(s: State, t: TxnId, k: Key)
    requires Inv(s) && Enabled(s, Abandon(t))
    ensures KeyInv(Apply(s, Abandon(t)), k)
  {
    hide Locks.Inv, FlightInv, ViewsAgree, ViewInv, CommitChain, AbortChain, Live;
    var s' := Apply(s, Abandon(t));
    assert KeyInv(s, k);
    ChainOfCommitAll(s.chains, t, 0, k);
    if Owns(s, k, t) {
      OwnerOwnsAll(s, k, t);
      AbortedTailVanishes(ChainOf(s.chains, k), HistOf(s, k), t);
    } else {
      UnownedChainUntouched(s, t, 0, k);
      OthersStayOwners(s, s', t, k);
    }
  }

  lemma AbortedTailVanishes(chain: Chain, h: KeyHistory, t: TxnId)
    requires ChainInv(chain, h) && AllActiveBy(Live(chain), t)
    ensures Live(AbortChain(chain, t)) == Live(chain)[..|h.versions| - h.dropped]
    ensures ChainInv(AbortChain(chain, t), h)
  {
    hide Live;
    var live := Live(chain);
    var n := |h.versions| - h.dropped;
    var aborted := AbortChain(live, t);
    LiveOfAbort(chain, t);
    forall i | n <= i < |live|
      ensures aborted[i].state == Aborted
    {
      assert live[i] in live;
    }
    AbortedTail(aborted, n);
    assert aborted[..n] == live[..n];
  }

  lemma {:induction false} AbortedTail(chain: Chain, n: nat)
    requires n <= |chain|
    requires forall i | 0 <= i < n :: chain[i].state != Aborted
    requires forall i | n <= i < |chain| :: chain[i].state == Aborted
    ensures Live(chain) == chain[..n]
  {
    if n < |chain| {
      AbortedTail(chain[..|chain| - 1], n);
      assert chain[..|chain| - 1][..n] == chain[..n];
    } else {
      LiveIdentity(chain);
      assert chain[..n] == chain;
    }
  }

  // A commit turns the owner's active tail into the newest versions.
  lemma CommittedTail(live: Chain, h: KeyHistory, t: TxnId, c: SeqNo)
    requires LiveInv(live, h) && AllActiveBy(live, t)
    ensures LiveInv(CommitChain(live, t, c), h.(versions := h.versions + NewVersions(live, t, c)))
    ensures forall r | r in CommitChain(live, t, c) :: r.state == Committed
    ensures forall v | v in NewVersions(live, t, c) :: v.commit == c && v.txn == t
  {
    hide NewVersions;
    var n := |h.versions| - h.dropped;
    forall i | n <= i < |live|
      ensures live[i].txn == t
    {
      assert live[i] in live;
    }
    NewVersionsOfTail(live, n, t, c);
    var h' := h.(versions := h.versions + NewVersions(live, t, c));
    var live' := CommitChain(live, t, c);
    forall i | n <= i < |live'|
      ensures live'[i] == RecordOf(h'.versions[h.dropped + i], h.dropped + i < h.flushed)
    {
      assert h'.versions[h.dropped + i] == NewVersions(live, t, c)[i - n];
    }
  }

  lemma NewestCommitIsLast(s: State, t: TxnId, k: Key)
    requires KeyInv(s, k) && t in s.prepared && Owns(s, k, t)
    ensures NewerThan(HistOf(s, k).versions, s.prepared[t])
  {
    var r :| r in Live(ChainOf(s.chains, k)) && r.state == Active && r.txn == t;
    assert Owned(s, k, r);
  }

  lemma HistOfPublish(s: State, t: TxnId, k: Key)
    requires t in s.prepared
    ensures HistOf(DoPublish(s, t), k)
         == HistOf(s, k).(versions := HistOf(s, k).versions + NewVersions(ChainOf(s.chains, k), t, s.prepared[t]))
  {
  }

  lemma OwnedCommit(chain: Chain, h: KeyHistory, t: TxnId, c: SeqNo)
    requires ChainInv(chain, h) && AllActiveBy(Live(chain), t)
    ensures ChainInv(CommitChain(chain, t, c), h.(versions := h.versions + NewVersions(chain, t, c)))
    ensures forall r | r in Live(CommitChain(chain, t, c)) :: r.state == Committed
    ensures forall v | v in NewVersions(chain, t, c) :: v.commit == c && v.txn == t
  {
    LiveOfCommit(chain, t, c);
    NewVersionsInLive(chain, t, c);
    CommittedTail(Live(chain), h, t, c);
  }

  lemma AddedAreExtension(s: State, s': State, k: Key, t: TxnId, added: seq<Version>)
    requires t in s.prepared && NewerThan(HistOf(s, k).versions, s.prepared[t])
    requires HistOf(s', k) == HistOf(s, k).(versions := HistOf(s, k).versions + added)
    requires forall v | v in added :: v.commit == s.prepared[t] && v.txn == t
    ensures Extends(s, s', k, t)
  {
    var h, h' := HistOf(s, k), HistOf(s', k);
    forall i | |h.versions| <= i < |h'.versions|
      ensures h'.versions[i].txn == t && h'.versions[i].commit == s.prepared[t]
    {
      assert h'.versions[i] in added;
    }
  }

  lemma PublishByOwner(s: State, t: TxnId, k: Key)
    requires Inv(s) && Enabled(s, Publish(t)) && Owns(s, k, t)
    ensures KeyInv(Apply(s, Publish(t)), k)
    ensures Extends(s, Apply(s, Publish(t)), k, t)
  {
    var c := s.prepared[t];
    var s' := Apply(s, Publish(t));
    assert KeyInv(s, k);
    var chain, h := ChainOf(s.chains, k), HistOf(s, k);
    ChainOfCommitAll(s.chains, t, c, k);
    HistOfPublish(s, t, k);
    OwnerOwnsAll(s, k, t);
    OwnedCommit(chain, h, t, c);
    NewestCommitIsLast(s, t, k);
    AddedAreExtension(s, s', k, t, NewVersions(chain, t, c));
    assert HistInv(s', HistOf(s', k)) by {
      assert 1 <= c by { PreparedArePositive(s, t); }
      AppendKeepsHistory(s, h, NewVersions(chain, t, c), t, c, s');
    }
    CellsOfGrownHistory(s.lsm, k, h, HistOf(s', k));
  }

  lemma PreparedArePositive(s: State, t: TxnId)
    requires Inv(s) && t in s.prepared
    ensures 1 <= s.prepared[t] < s.nextSeq && t < s.nextTxn
  {
  }

  lemma AppendKeepsHistory(s: State, h: KeyHistory, added: seq<Version>, t: TxnId, c: SeqNo, s': State)
    requires HistInv(s, h) && NewerThan(h.versions, c) && 1 <= c < s.nextSeq
    requires forall v | v in added :: v.commit == c && v.txn == t
    requires s'.txns == s.txns - {t} && s'.nextSeq == s.nextSeq && s'.nextTxn == s.nextTxn && t < s.nextTxn
    ensures HistInv(s', h.(versions := h.versions + added))
  {
    var vs := h.versions + added;
    forall i | |h.versions| <= i < |vs|
      ensures vs[i].commit == c && vs[i].txn == t
    {
      assert vs[i] in added;
    }
  }

  lemma PublishByOther(s: State, t: TxnId, k: Key)
    requires KeyInv(s, k) && Enabled(s, Publish(t)) && !Owns(s, k, t)
    ensures KeyInv(Apply(s, Publish(t)), k)
    ensures Extends(s, Apply(s, Publish(t)), k, t)
  {
    hide CommitChain, NewVersions, Live, Owns;
    var c := s.prepared[t];
    var s' := Apply(s, Publish(t));
    ChainOfCommitAll(s.chains, t, c, k);
    HistOfPublish(s, t, k);
    UnownedChainUntouched(s, t, c, k);
    var vs := HistOf(s, k).versions;
    assert vs + NewVersions(ChainOf(s.chains, k), t, c) == vs;
    OthersStayOwners(s, s', t, k);
  }

  lemma PublishKeepsKey(s: State, t: TxnId, k: Key)
    requires Inv(s) && Enabled(s, Publish(t))
    ensures KeyInv(Apply(s, Publish(t)), k)
    ensures Extends(s, Apply(s, Publish(t)), k, t)
  {
    hide KeyInv, Owns, Extends, Locks.Inv, FlightInv, ViewsAgree;
    if Owns(s, k, t) {
      PublishByOwner(s, t, k);
    } else {
      PublishByOther(s, t, k);
    }
  }

  // What a commit adds to a key: versions of t, all with its number, after everything else.
  ghost predicate Extends(s: State, s': State, k: Key, t: TxnId) {
    var h, h' := HistOf(s, k), HistOf(s', k);
    && t in s.prepared
    && Grows(h, h') && h'.dropped == h.dropped
    && (forall i | |h.versions| <= i < |h'.versions| ::
          h'.versions[i].txn == t && h'.versions[i].commit == s.prepared[t])
    && NewerOnTop(h, h')
  }

  lemma GcKeepsOwners(s: State, k: Key)
    requires KeyInv(s, k)
    ensures OwnerInv(Apply(s, Gc), k)
  {
    hide Live, Collected, ChainInv, HistInv, CellInv, Locks.Holds;
    var s', h := Apply(s, Gc), HistOf(s, k);
    CollectKeepsLive(ChainOf(s.chains, k), h);
    GcOnChain(s, k);
    forall r | r in Live(ChainOf(s'.chains, k)) && r.state == Active
      ensures Owned(s', k, r)
    {
      assert r in Live(ChainOf(s.chains, k)) && Owned(s, k, r);
    }
  }

  lemma GcOnChain(s: State, k: Key)
    ensures ChainOf(Apply(s, Gc).chains, k) == Collected(ChainOf(s.chains, k))
    ensures HistOf(s, k).dropped <= HistOf(s, k).flushed <= |HistOf(s, k).versions| ==>
              HistOf(Apply(s, Gc), k) == HistOf(s, k).(dropped := CollectedTo(HistOf(s, k)))
    ensures HistOf(Apply(s, Gc), k).versions == HistOf(s, k).versions && HistOf(Apply(s, Gc), k).flushed == HistOf(s, k).flushed
  {
  }

  lemma GcKeepsKey(s: State, k: Key)
    requires KeyInv(s, k)
    ensures KeyInv(Apply(s, Gc), k)
  {
    hide Live, Collected, OwnerInv, CollectedTo;
    GcKeepsOwners(s, k);
    GcOnChain(s, k);
    CollectKeepsChain(ChainOf(s.chains, k), HistOf(s, k));
    GcKeepsRest(s, k);
  }

  lemma GcKeepsRest(s: State, k: Key)
    requires HistInv(s, HistOf(s, k)) && CellInv(s.lsm, k, HistOf(s, k))
    ensures HistInv(Apply(s, Gc), HistOf(Apply(s, Gc), k)) && CellInv(Apply(s, Gc).lsm, k, HistOf(Apply(s, Gc), k))
  {
    hide Group, FlushResult;
    GcOnChain(s, k);
  }

  lemma SlicesJoin<T>(a: seq<T>, m: nat, n: nat)
    requires m <= n <= |a|
    ensures a[..n][m..] + a[n..] == a[m..]
  {
  }

  lemma CommittedPartKept(live: Chain, h: KeyHistory)
    requires LiveInv(live, h) && h.dropped < |h.versions|
    ensures CollectedTo(h) >= h.dropped
    ensures var n := |h.versions| - h.dropped;
            Kept(live[..n], false) == live[..n][CollectedTo(h) - h.dropped..]
  {
    var n := |h.versions| - h.dropped;
    assert FlushedUpTo(live[..n], h.flushed - h.dropped);
    KeptOfCommitted(live[..n], h.flushed - h.dropped);
  }

  lemma CollectLive(live: Chain, h: KeyHistory)
    requires LiveInv(live, h)
    ensures 0 <= CollectedTo(h) - h.dropped <= |h.versions| - h.dropped <= |live|
    ensures Kept(live, false) == live[CollectedTo(h) - h.dropped..]
  {
    hide Kept;
    var n := |h.versions| - h.dropped;
    KeptSparesActive(live, n, false);
    if n > 0 {
      CommittedPartKept(live, h);
      SlicesJoin(live, CollectedTo(h) - h.dropped, n);
    } else {
      KeptNothing();
      assert live[..n] == [] && live[n..] == live;
    }
  }

  lemma KeptNothing()
    ensures Kept([], false) == []
  {
  }

  lemma CollectedIsSuffix(chain: Chain, h: KeyHistory)
    requires ChainInv(chain, h)
    ensures 0 <= CollectedTo(h) - h.dropped <= |h.versions| - h.dropped <= |Live(chain)|
    ensures Collected(chain) == Live(chain)[CollectedTo(h) - h.dropped..]
  {
    hide Kept, Live, LiveInv, CollectedTo;
    CollectLive(Live(chain), h);
  }

  // The collector keeps a suffix of the live records.
  lemma CollectKeepsLive(chain: Chain, h: KeyHistory)
    requires ChainInv(chain, h)
    ensures 0 <= CollectedTo(h) - h.dropped <= |Live(chain)|
    ensures Live(Collected(chain)) == Live(chain)[CollectedTo(h) - h.dropped..]
  {
    CollectedIsSuffix(chain, h);
    LiveHasNoAborted(chain);
    SuffixOfLive(Live(chain), CollectedTo(h) - h.dropped);
  }

  lemma CollectKeepsChain(chain: Chain, h: KeyHistory)
    requires ChainInv(chain, h)
    ensures ChainInv(Collected(chain), h.(dropped := CollectedTo(h)))
  {
    CollectKeepsLive(chain, h);
    CollectedToBounds(h);
    SuffixGivesChain(Collected(chain), Live(chain), h, CollectedTo(h));
  }

  lemma SuffixGivesChain(chain: Chain, live: Chain, h: KeyHistory, d: nat)
    requires LiveInv(live, h) && h.dropped <= d <= h.flushed
    requires Live(chain) == live[d - h.dropped..]
    ensures ChainInv(chain, h.(dropped := d))
  {
    SuffixKeepsLive(live, h, d - h.dropped);
  }

  lemma CollectedToBounds(h: KeyHistory)
    requires h.dropped <= h.flushed <= |h.versions|
    ensures h.dropped <= CollectedTo(h) <= h.flushed
  {
  }

  lemma SuffixOfLive(live: Chain, m: nat)
    requires m <= |live| && forall i | 0 <= i < |live| :: live[i].state != Aborted
    ensures Live(live[m..]) == live[m..]
  {
    LiveIdentity(live[m..]);
  }

  lemma SuffixKeepsLive(live: Chain, h: KeyHistory, m: nat)
    requires LiveInv(live, h) && h.dropped + m <= h.flushed
    ensures LiveInv(live[m..], h.(dropped := h.dropped + m))
  {
  }

  // ---- flushing ----

  lemma FlightFits(s: State)
    requires FlightInv(s) && s.flight.Flight?
    ensures GoalsFit(s.hist, s.flight.keys, s.flight.goals)
  {
  }

  lemma FlushWriteKeepsKey(s: State, k: Key)
    requires Inv(s) && Enabled(s, FlushWrite)
    ensures KeyInv(Apply(s, FlushWrite), k)
  {
    assert KeyInv(s, k);
    var f := s.flight;
    FlightFits(s);
    WriteItemKeepsCells(s.hist, f.keys, f.goals, s.lsm, f.items[f.written], k);
  }

  lemma FlushDoneKeepsCells(s: State, k: Key)
    requires FlightInv(s) && Enabled(s, FlushDone) && HistInv(s, HistOf(s, k)) && CellInv(s.lsm, k, HistOf(s, k))
    ensures var h' := HistOf(Apply(s, FlushDone), k);
            HistInv(Apply(s, FlushDone), h') && CellInv(s.lsm, k, h')
  {
    hide Group, FlushResult, FlushMarks, FlightItems, WriteItems;
    var f, h := s.flight, HistOf(s, k);
    var h' := HistOf(Apply(s, FlushDone), k);
    FlightFits(s);
    assert f.items[..f.written] == f.items;
    if k in f.goals {
      assert h' == h.(flushed := f.goals[k]);
      forall i | 0 <= i < h'.flushed
        ensures CommitFlushed(s.lsm, k, h'.versions, i)
      {
        if i >= h.flushed {
          FlightFillsCells(s.hist, f.keys, f.goals, f.before, k, i);
        } else {
          assert CommitFlushed(s.lsm, k, h.versions, i);
        }
      }
    } else {
      assert h' == h;
    }
  }

  lemma FlushDoneKeepsKey(s: State, k: Key)
    requires Inv(s) && Enabled(s, FlushDone)
    ensures KeyInv(Apply(s, FlushDone), k)
  {
    hide ViewsAgree, ViewInv, Locks.Inv, ChainInv, OwnerInv, HistInv, CellInv, FlightInv;
    assert KeyInv(s, k);
    FlushDoneKeepsCells(s, k);
    MarkingMovesFlushed(s, k);
  }

  lemma MarksOfItems(items: seq<(Key, Record)>, k: Key, c: SeqNo)
    ensures (k, c) in Marks(items) <==> exists r :: (k, r) in items && r.commit == c
  {
    if (k, c) in Marks(items) {
      var i :| 0 <= i < |items| && Marks(items)[i] == (k, c);
      assert (k, items[i].1) in items;
    }
    if r :| (k, r) in items && r.commit == c {
      var i :| 0 <= i < |items| && items[i] == (k, r);
      assert Marks(items)[i] == (k, c);
    }
  }

  // The marks of a finished flight hit exactly the versions it covers.
  lemma MarkedAreCovered(s: State, k: Key, i: nat)
    requires FlightInv(s) && s.flight.Flight? && HistInv(s, HistOf(s, k)) && i < |HistOf(s, k).versions|
    ensures (k, HistOf(s, k).versions[i].commit) in Marks(s.flight.items)
       <==> k in s.flight.goals && HistOf(s, k).flushed <= i < s.flight.goals[k]
  {
    var f := s.flight;
    var h := HistOf(s, k);
    var c := h.versions[i].commit;
    FlightFits(s);
    MarksOfItems(f.items, k, c);
    if k in f.goals && h.flushed <= i < f.goals[k] {
      FlightHasItem(s.hist, f.keys, f.goals, k, i);
    }
    if r :| (k, r) in f.items && r.commit == c {
      FlightItemIsPicked(s.hist, f.keys, f.goals, (k, r));
      var j: nat :| IsPicked(s.hist, f.keys, f.goals, k, r, j);
      if i < h.flushed {
        BoundarySplits(h.versions, h.flushed, i, j);
      }
      if i >= f.goals[k] {
        BoundarySplits(h.versions, f.goals[k], j, i);
      }
    }
  }

  lemma MarkedLive(live: Chain, h: KeyHistory, k: Key, marks: set<(Key, SeqNo)>, goal: nat)
    requires LiveInv(live, h) && h.flushed <= goal <= |h.versions|
    requires forall i | 0 <= i < |h.versions| :: (k, h.versions[i].commit) in marks <==> h.flushed <= i < goal
    ensures LiveInv(MarkBy(live, k, marks), h.(flushed := goal))
    ensures forall r | r in MarkBy(live, k, marks) && r.state == Active :: r in live
  {
    var live' := MarkBy(live, k, marks);
    var n := |h.versions| - h.dropped;
    forall i | 0 <= i < n
      ensures live'[i] == RecordOf(h.versions[h.dropped + i], h.dropped + i < goal)
    {
      assert live[i] == RecordOf(h.versions[h.dropped + i], h.dropped + i < h.flushed);
    }
  }

  lemma MarkingMovesFlushed(s: State, k: Key)
    requires Inv(s) && Enabled(s, FlushDone) && KeyInv(s, k)
    ensures var s' := Apply(s, FlushDone);
            ChainInv(ChainOf(s'.chains, k), HistOf(s', k)) && OwnerInv(s', k)
  {
    hide ViewsAgree, ViewInv, Locks.Inv, CellInv, Boundary;
    var s' := Apply(s, FlushDone);
    var marks := set m | m in Marks(s.flight.items);
    var chain, h := ChainOf(s.chains, k), HistOf(s, k);
    MarksOneByOne(s.chains, Marks(s.flight.items), k);
    LiveOfMark(chain, k, marks);
    forall i | 0 <= i < |h.versions|
      ensures (k, h.versions[i].commit) in marks
         <==> k in s.flight.goals && h.flushed <= i < s.flight.goals[k]
    {
      MarkedAreCovered(s, k, i);
    }
    var goal := if k in s.flight.goals then s.flight.goals[k] else h.flushed;
    MarkedLive(Live(chain), h, k, marks, goal);
    assert HistOf(s', k) == h.(flushed := goal);
    forall r | r in Live(ChainOf(s'.chains, k)) && r.state == Active
      ensures Owned(s', k, r)
    {
      assert Owned(s, k, r);
    }
  }

  // ---- the flight ----

  lemma FlightGoalFrame(h: KeyHistory, h': KeyHistory, l: Lsm, k: Key, goal: nat)
    requires Grows(h, h') && NewerOnTop(h, h') && CellInv(l, k, h)
    requires h.flushed <= goal <= |h.versions| && Boundary(h.versions, goal)
    ensures h'.flushed <= goal <= |h'.versions| && Boundary(h'.versions, goal) && CellInv(l, k, h')
  {
    CellsOfGrownHistory(l, k, h, h');
    assert forall i | 0 <= i < |h.versions| :: h'.versions[i] == h.versions[i];
  }

  // A flight goes on undisturbed while histories only grow by newer commits.
  lemma FlightFrame(s: State, s': State)
    requires FlightInv(s) && s'.flight == s.flight && s'.lsm == s.lsm
    requires forall k :: Grows(HistOf(s, k), HistOf(s', k)) && NewerOnTop(HistOf(s, k), HistOf(s', k))
    ensures FlightInv(s')
  {
    if s.flight.Flight? {
      var f := s.flight;
      forall k | k in f.goals
        ensures HistOf(s', k).flushed <= f.goals[k] <= |HistOf(s', k).versions|
        ensures Boundary(HistOf(s', k).versions, f.goals[k]) && CellInv(f.before, k, HistOf(s', k))
      {
        FlightGoalFrame(HistOf(s, k), HistOf(s', k), f.before, k, f.goals[k]);
      }
      FlightItemsFrame(s.hist, s'.hist, f.keys, f.goals);
    }
  }

  lemma PickOfKey(chain: Chain, h: KeyHistory)
    requires ChainInv(chain, h)
    ensures Unflushed(chain) == NewestFirst(h.versions, h.flushed, |h.versions|)
  {
    var live := Live(chain);
    var n := |h.versions| - h.dropped;
    UnflushedInLive(chain);
    UnflushedSkipsActive(live, n);
    UnflushedIsNewestFirst(live[..n], h, |h.versions|);
  }

  lemma {:induction false} PickIsFlight(s: State, ks: seq<Key>, goals: map<Key, nat>)
    requires forall k | k in ks :: KeyInv(s, k) && k in goals && goals[k] == |HistOf(s, k).versions|
    ensures PickFrom(s.chains, ks) == FlightItems(s.hist, ks, goals)
  {
    if ks != [] {
      var init, k := ks[..|ks| - 1], ks[|ks| - 1];
      assert ks == init + [k];
      assert forall x | x in init :: x in ks;
      PickIsFlight(s, init, goals);
      assert k in ks;
      PickOfKey(ChainOf(s.chains, k), HistOf(s, k));
    }
  }

  lemma PickStartsFlight(s: State, ks: seq<Key>)
    requires Inv(s) && Enabled(s, FlushPick(ks))
    ensures FlightInv(Apply(s, FlushPick(ks)))
  {
    hide ChainInv, OwnerInv, ViewsAgree, ViewInv, Locks.Inv, PickFrom, FlightItems, CommitFlushed, WriteItem, Sorted, Locks.ReleaseAll;
    var s' := Apply(s, FlushPick(ks));
    var f := s'.flight;
    PickIsFlight(s, ks, f.goals);
    assert f.items[..0] == [];
  }

  lemma WriteAdvancesFlight(s: State)
    requires FlightInv(s) && Enabled(s, FlushWrite)
    ensures FlightInv(DoFlushWrite(s))
  {
    var f := s.flight;
    WritePrefix(f.before, f.items, f.written);
    FlightFits(s);
  }

  lemma WritePrefix(l: Lsm, items: seq<(Key, Record)>, n: nat)
    requires n < |items|
    ensures WriteItems(l, items[..n + 1]) == WriteItem(WriteItems(l, items[..n]), items[n])
  {
    assert items[..n + 1][..n] == items[..n];
  }

  lemma WriteBelowNextSeq(s: State)
    requires Inv(s) && Enabled(s, FlushWrite)
    ensures Apply(s, FlushWrite).lsm.top < s.nextSeq
  {
    hide ChainInv, OwnerInv, ViewsAgree, ViewInv, Locks.Inv, CellInv;
    var f := s.flight;
    var (k, r) := f.items[f.written];
    FlightFits(s);
    FlightItemIsPicked(s.hist, f.keys, f.goals, (k, r));
    var i: nat :| IsPicked(s.hist, f.keys, f.goals, k, r, i);
    assert KeyInv(s, k);
  }

  // ---- views ----

  // A reader takes no notice of a commit published after it began, in either order.
  lemma LateCommitAgrees(h: Handle, v: Version)
    requires v.txn in h.view.active || v.txn >= h.view.upLimit
    requires v.commit > h.readSeq || v.txn in h.inflight
    ensures AgreeAt(h, v)
  {
  }

  lemma PublishKeepsAgreement(s: State, t: TxnId, u: TxnId, k: Key)
    requires Inv(s) && Enabled(s, Publish(t)) && u in s.txns && u != t
    requires Extends(s, Apply(s, Publish(t)), k, t)
    ensures Agrees(s.txns[u], HistOf(Apply(s, Publish(t)), k).versions)
  {
    hide KeyInv, Locks.Inv, FlightInv, CommitAll;
    var vs, vs' := HistOf(s, k).versions, HistOf(Apply(s, Publish(t)), k).versions;
    var h := s.txns[u];
    assert ViewsAgree(s, k) && ViewInv(s, u);
    if h.view.policy == RepeatableRead {
      forall i | 0 <= i < |vs'|
        ensures AgreeAt(h, vs'[i])
      {
        if i < |vs| {
          assert vs'[i] == vs[i];
        } else {
          LateCommitAgrees(h, vs'[i]);
        }
      }
    }
  }

  lemma BeginAgrees(s: State, policy: Policy, k: Key)
    requires Inv(s)
    ensures Agrees(Apply(s, Begin(policy)).txns[s.nextTxn], HistOf(s, k).versions)
  {
    assert KeyInv(s, k);
  }

  // ---- whole steps ----

  lemma SameFlight(s: State, s': State)
    requires FlightInv(s) && s'.flight == s.flight && s'.lsm == s.lsm && s'.hist == s.hist
    ensures FlightInv(s')
  {
  }

  lemma LockStepKeepsInv(s: State, l: Locks.Step)
    requires Inv(s) && Enabled(s, LockStep(l))
    ensures Inv(Apply(s, LockStep(l)))
  {
    hide KeyInv, Agrees, Locks.Inv, FlightInv;
    var s' := Apply(s, LockStep(l));
    SameFlight(s, s');
    Locks.StepKeepsInv(s.locks, l);
    forall k
      ensures KeyInv(s', k) && ViewsAgree(s', k)
    {
      LockStepKeepsKey(s, l, k);
      assert ViewsAgree(s, k);
    }
    forall t | t in s'.txns
      ensures ViewInv(s', t)
    {
      assert ViewInv(s, t);
    }
  }

  lemma BeginKeepsInv(s: State, policy: Policy)
    requires Inv(s)
    ensures Inv(Apply(s, Begin(policy)))
  {
    hide KeyInv, Locks.Inv, FlightInv, AgreeAt;
    var s' := Apply(s, Begin(policy));
    SameFlight(s, s');
    forall k
      ensures KeyInv(s', k) && ViewsAgree(s', k)
    {
      BeginKeepsKey(s, policy, k);
      BeginAgrees(s, policy, k);
      assert ViewsAgree(s, k);
    }
    forall t | t in s'.txns
      ensures ViewInv(s', t)
    {
      assert t in s.txns ==> ViewInv(s, t);
    }
  }

  lemma WriteKeepsInv(s: State, t: TxnId, key: Key, p: Payload)
    requires Inv(s) && Enabled(s, DoWrite(t, key, p))
    ensures Inv(Apply(s, DoWrite(t, key, p)))
  {
    hide KeyInv, Agrees, Locks.Inv, FlightInv;
    var s' := Apply(s, DoWrite(t, key, p));
    SameFlight(s, s');
    forall k
      ensures KeyInv(s', k) && ViewsAgree(s', k)
    {
      assert KeyInv(s, k) && ViewsAgree(s, k);
      WriteKeepsKey(s, t, key, p, k);
    }
    forall u | u in s'.txns
      ensures ViewInv(s', u)
    {
      assert ViewInv(s, u);
    }
  }

  lemma PrepareKeepsInv(s: State, t: TxnId)
    requires Inv(s) && Enabled(s, Prepare(t))
    ensures Inv(Apply(s, Prepare(t)))
  {
    hide KeyInv, Agrees, Locks.Inv, FlightInv;
    var s' := Apply(s, Prepare(t));
    SameFlight(s, s');
    forall k
      ensures KeyInv(s', k) && ViewsAgree(s', k)
    {
      PrepareKeepsKey(s, t, k);
      assert ViewsAgree(s, k);
    }
    forall u | u in s'.txns
      ensures ViewInv(s', u)
    {
      assert ViewInv(s, u);
    }
  }

  // What stays when a transaction leaves.
  lemma FinishKeepsRest(s: State, s': State, t: TxnId)
    requires Inv(s) && t in s.txns && t !in s.locks.blocked
    requires s'.txns == s.txns - {t} && s'.prepared == s.prepared - {t}
    requires s'.nextTxn == s.nextTxn && s'.locks == Locks.ReleaseAll(s.locks, t)
    ensures Locks.Inv(s'.locks) && s'.prepared.Keys <= s'.txns.Keys
    ensures forall u | u in s'.prepared :: u !in s'.locks.blocked
    ensures s'.nextSeq == s.nextSeq ==> forall u | u in s'.txns :: ViewInv(s', u)
  {
    Locks.ReleaseAllKeepsInv(s.locks, t);
    if s'.nextSeq == s.nextSeq {
      forall u | u in s'.txns
        ensures ViewInv(s', u)
      {
        assert ViewInv(s, u);
      }
    }
  }

  lemma AbandonKeepsInv(s: State, t: TxnId)
    requires Inv(s) && Enabled(s, Abandon(t))
    ensures Inv(Apply(s, Abandon(t)))
  {
    hide KeyInv, Agrees, Locks.Inv, FlightInv;
    var s' := Apply(s, Abandon(t));
    SameFlight(s, s');
    forall k
      ensures KeyInv(s', k) && ViewsAgree(s', k)
    {
      AbandonKeepsKey(s, t, k);
      assert ViewsAgree(s, k);
    }
    FinishKeepsRest(s, s', t);
  }

  lemma PublishKeepsInv(s: State, t: TxnId)
    requires Inv(s) && Enabled(s, Publish(t))
    ensures Inv(Apply(s, Publish(t)))
  {
    var s' := Apply(s, Publish(t));
    forall k
      ensures KeyInv(s', k) && ViewsAgree(s', k) && Extends(s, s', k, t)
    {
      PublishKeepsKey(s, t, k);
      forall u | u in s'.txns
        ensures Agrees(s'.txns[u], HistOf(s', k).versions)
      {
        PublishKeepsAgreement(s, t, u, k);
      }
    }
    forall k
      ensures Grows(HistOf(s, k), HistOf(s', k)) && NewerOnTop(HistOf(s, k), HistOf(s', k))
    {
      assert Extends(s, s', k, t);
    }
    FinishKeepsRest(s, s', t);
    FlightFrame(s, s');
  }

  predicate IsFlush(step: Step) {
    step.FlushPick? || step.FlushWrite? || step.FlushDone? || step.FlushFail?
  }

  lemma FlushKeepsKeys(s: State, step: Step, k: Key)
    requires Inv(s) && Enabled(s, step) && IsFlush(step)
    ensures KeyInv(Apply(s, step), k)
    ensures ViewsAgree(Apply(s, step), k)
  {
    hide Agrees, Locks.Inv, ChainInv, OwnerInv, HistInv, CellInv, FlightInv;
    var s' := Apply(s, step);
    assert KeyInv(s, k) && ViewsAgree(s, k);
    match step {
      case FlushPick(ks) => KeyFrame(s, s', k);
      case FlushWrite => FlushWriteKeepsKey(s, k);
      case FlushDone => FlushDoneKeepsKey(s, k);
      case FlushFail => KeyFrame(s, s', k);
    }
  }

  lemma FlushKeepsFlight(s: State, step: Step)
    requires Inv(s) && Enabled(s, step) && IsFlush(step)
    ensures FlightInv(Apply(s, step)) && Apply(s, step).lsm.top < s.nextSeq && Orderly(Apply(s, step).lsm)
  {
    hide KeyInv, ViewsAgree, Locks.Inv;
    match step {
      case FlushPick(ks) => PickStartsFlight(s, ks);
      case FlushWrite =>
        var (k, r) := s.flight.items[s.flight.written];
        WriteAdvancesFlight(s);
        WriteBelowNextSeq(s);
        WriteKeepsOrderly(s.lsm, k, r.commit, r.payload);
      case FlushDone =>
      case FlushFail =>
    }
  }

  lemma FlushKeepsInv(s: State, step: Step)
    requires Inv(s) && Enabled(s, step) && IsFlush(step)
    ensures Inv(Apply(s, step))
  {
    hide KeyInv, ViewsAgree, Locks.Inv, FlightInv;
    var s' := Apply(s, step);
    FlushKeepsFlight(s, step);
    forall k
      ensures KeyInv(s', k) && ViewsAgree(s', k)
    {
      FlushKeepsKeys(s, step, k);
    }
    forall u | u in s'.txns
      ensures ViewInv(s', u)
    {
      assert ViewInv(s, u);
    }
  }

  lemma GcKeepsInv(s: State)
    requires Inv(s)
    ensures Inv(Apply(s, Gc))
  {
    var s' := Apply(s, Gc);
    forall k
      ensures KeyInv(s', k) && ViewsAgree(s', k)
      ensures Grows(HistOf(s, k), HistOf(s', k)) && NewerOnTop(HistOf(s, k), HistOf(s', k))
    {
      GcKeepsKey(s, k);
      assert ViewsAgree(s, k);
    }
    FlightFrame(s, s');
    forall u | u in s'.txns
      ensures ViewInv(s', u)
    {
      assert ViewInv(s, u);
    }
  }

  lemma StepKeepsInv(s: State, step: Step)
    requires Inv(s) && Enabled(s, step)
    ensures Inv(Apply(s, step))
  {
    match step
    case LockStep(l) => LockStepKeepsInv(s, l);
    case Begin(policy) => BeginKeepsInv(s, policy);
    case DoWrite(t, k, p) => WriteKeepsInv(s, t, k, p);
    case Prepare(t) => PrepareKeepsInv(s, t);
    case Publish(t) => PublishKeepsInv(s, t);
    case Abandon(t) => AbandonKeepsInv(s, t);
    case FlushPick(ks) => FlushKeepsInv(s, step);
    case FlushWrite => FlushKeepsInv(s, step);
    case FlushDone => FlushKeepsInv(s, step);
    case FlushFail => FlushKeepsInv(s, step);
    case Gc => GcKeepsInv(s);
  }

  lemma {:induction false} RunKeepsInv(s: State, steps: seq<Step>, s': State)
    requires Inv(s) && Run(s, steps, s')
    ensures Inv(s')
    decreases |steps|
  {
    if steps != [] {
      StepKeepsInv(s, steps[0]);
      RunKeepsInv(Apply(s, steps[0]), steps[1..], s');
    }
  }

  // ---- the start ----

  lemma {:induction false} GroupOfStrict(vs: seq<Version>, i: nat)
    requires i < |vs| && forall a, b | 0 <= a < b < |vs| :: vs[a].commit < vs[b].commit
    ensures Group(vs, vs[i].commit) == [vs[i].payload]
  {
    GroupOfSlice(vs, i, i + 1, vs[i].commit);
    assert vs[i..i + 1] == [] + [vs[i]];
    GroupOfOne([], vs[i], vs[i].commit);
  }

  lemma InitKeyInv(s: State, k: Key)
    requires Init(s)
    ensures KeyInv(s, k)
  {
    assert RecoveredKey(s, k);
    var h := HistOf(s, k);
    forall c | (k, c) in s.lsm.cells
      ensures s.lsm.cells[(k, c)] in Group(h.versions, c)
      ensures (k, c) in s.lsm.tombs ==> Delete in Group(h.versions, c)
    {
      var i :| 0 <= i < |h.versions| && h.versions[i].commit == c;
      GroupOfStrict(h.versions, i);
    }
    forall i | 0 <= i < h.flushed
      ensures CommitFlushed(s.lsm, k, h.versions, i)
    {
      GroupOfStrict(h.versions, i);
    }
  }

  lemma InitInv(s: State)
    requires Init(s)
    ensures Inv(s)
  {
    Locks.EmptyInv();
    forall k
      ensures KeyInv(s, k)
    {
      InitKeyInv(s, k);
    }
  }

  lemma Reachable(s0: State, steps: seq<Step>, s: State)
    requires Init(s0) && Run(s0, steps, s)
    ensures Inv(s)
  {
    InitInv(s0);
    RunKeepsInv(s0, steps, s);
  }
}
