/** What readers can rely on in every reachable state. */
module EngineTheorems {
  import opened Types
  import opened VersionChain
  import opened Lsm
  import opened History
  import opened Engine
  import opened ChainLemmas
  import opened FlushLemmas
  import opened EngineInvariant
  import Locks

  // ---- the chain and the LSM tree as one multi-version history ----

  // What the chain answers at s: the newest version up to s, if it is still retained.
  lemma {:induction false} RetainedRead(live: Chain, h: KeyHistory, hi: nat, s: SeqNo)
    requires h.dropped <= hi <= |h.versions| && |live| == hi - h.dropped
    requires forall i | 0 <= i < |live| ::
      live[i] == RecordOf(h.versions[h.dropped + i], h.dropped + i < h.flushed)
    ensures var i := NewestIndex(h.versions[..hi], s);
            VisibleAt(live, s) == if i >= h.dropped then Some(live[i - h.dropped]) else None
  {
    if live != [] {
      assert h.versions[..hi][..hi - 1] == h.versions[..hi - 1];
      RetainedRead(live[..|live| - 1], h, hi - 1, s);
    }
  }

  lemma LiveRead(live: Chain, h: KeyHistory, seqno: SeqNo)
    requires LiveInv(live, h)
    ensures var i := NewestIndex(h.versions, seqno);
            PayloadOf(VisibleAt(live, seqno)) == if i >= h.dropped then Some(h.versions[i].payload) else None
  {
    var n := |h.versions| - h.dropped;
    VisibleAtSkips(live, n, seqno);
    RetainedRead(live[..n], h, |h.versions|, seqno);
    assert h.versions[..|h.versions|] == h.versions;
  }

  lemma ChainRead(s: State, k: Key, seqno: SeqNo)
    requires KeyInv(s, k)
    ensures var h := HistOf(s, k);
            var i := NewestIndex(h.versions, seqno);
            PayloadOf(VisibleAt(ChainOf(s.chains, k), seqno))
              == if i >= h.dropped then Some(h.versions[i].payload) else None
  {
    VisibleAtInLive(ChainOf(s.chains, k), seqno);
    LiveRead(Live(ChainOf(s.chains, k)), HistOf(s, k), seqno);
  }

  // What the LSM tree answers at s for a commit that is flushed.
  lemma LsmRead(s: State, k: Key, seqno: SeqNo, tie: Tie)
    requires KeyInv(s, k) && 1 <= seqno && NewestIndex(HistOf(s, k).versions, seqno) < HistOf(s, k).flushed
    ensures var vs := HistOf(s, k).versions;
            var i := NewestIndex(vs, seqno);
            Read(s.lsm, k, seqno, tie)
              == if i < 0 || Group(vs, vs[i].commit) == [] then None else Some(Answered(Group(vs, vs[i].commit), tie))
  {
    var vs := HistOf(s, k).versions;
    var i := NewestIndex(vs, seqno);
    forall c: SeqNo | c <= seqno && (k, c) in s.lsm.cells
      ensures i >= 0 && c <= vs[i].commit
    {
      GroupHolds(vs, c, s.lsm.cells[(k, c)]);
      var j :| 0 <= j < |vs| && vs[j].commit == c && vs[j].payload == s.lsm.cells[(k, c)];
    }
    if i < 0 {
      NewestIsNone(s.lsm.cells, k, seqno);
    } else {
      GroupHasMember(vs, i);
      assert CommitFlushed(s.lsm, k, vs, i);
      NewestIs(s.lsm.cells, k, seqno, vs[i].commit);
    }
  }

  // The commit that answers at q, if any, is one the LSM tree reads back right.
  ghost predicate FaithfulAt(vs: seq<Version>, q: SeqNo) {
    var i := NewestIndex(vs, q);
    i < 0 || Faithful(Group(vs, vs[i].commit))
  }

  // The answer for a key at a sequence comes from a version still in the chain, or from a
  // commit whose writes the LSM tree reads back right. Sequence 0 means "latest" to the tree:
  // it answers right, with nothing, only while nothing of the key is in the tree.
  ghost predicate Sound(s: State, k: Key, seqno: SeqNo) {
    if seqno == 0 then forall c :: (k, c) !in s.lsm.cells
    else NewestIndex(HistOf(s, k).versions, seqno) >= HistOf(s, k).dropped || FaithfulAt(HistOf(s, k).versions, seqno)
  }

  // A snapshot reads the history, wherever the records of the tree have got to, exactly where
  // Sound holds.
  ghost predicate ReadsHistory(s: State, k: Key, seqno: SeqNo) {
    forall tie :: SnapshotRead(s, k, seqno, tie) == HistRead(HistOf(s, k).versions, seqno)
  }

  // In every reachable state, for every key and every sequence.
  lemma SnapshotReadsHistory(s0: State, steps: seq<Step>, s: State, k: Key, seqno: SeqNo)
    requires Init(s0) && Run(s0, steps, s)
    ensures ReadsHistory(s, k, seqno) <==> Sound(s, k, seqno)
  {
    Reachable(s0, steps, s);
    SnapshotReadExact(s, k, seqno);
  }

  lemma SnapshotReadExact(s: State, k: Key, seqno: SeqNo)
    requires Inv(s)
    ensures ReadsHistory(s, k, seqno) <==> Sound(s, k, seqno)
  {
    assert KeyInv(s, k);
    if seqno == 0 {
      SnapshotZeroReadsLatest(s, k);
    } else if NewestIndex(HistOf(s, k).versions, seqno) < HistOf(s, k).dropped {
      TreeAnswers(s, k, seqno);
    } else {
      ChainRead(s, k, seqno);
    }
  }

  lemma TreeAnswers(s: State, k: Key, seqno: SeqNo)
    requires KeyInv(s, k) && 1 <= seqno && NewestIndex(HistOf(s, k).versions, seqno) < HistOf(s, k).dropped
    ensures ReadsHistory(s, k, seqno) <==> Sound(s, k, seqno)
  {
    var vs := HistOf(s, k).versions;
    var i := NewestIndex(vs, seqno);
    ChainRead(s, k, seqno);
    if i >= 0 {
      NewestEndsGroup(vs, seqno);
    }
    forall tie
      ensures SnapshotRead(s, k, seqno, tie) == HistRead(vs, seqno)
         <==> i < 0 || Answered(Group(vs, vs[i].commit), tie) == Group(vs, vs[i].commit)[|Group(vs, vs[i].commit)| - 1]
    {
      LsmRead(s, k, seqno, tie);
    }
  }

  lemma SnapshotZeroReadsLatest(s: State, k: Key)
    requires Inv(s)
    ensures ReadsHistory(s, k, 0) <==> Sound(s, k, 0)
  {
    assert KeyInv(s, k);
    var vs := HistOf(s, k).versions;
    ChainRead(s, k, 0);
    assert NewestIndex(vs, 0) == -1;
    NewestFinds(s.lsm.cells, k, s.lsm.top);
    forall c | (k, c) in s.lsm.cells
      ensures c <= s.lsm.top
    {
      assert (k, c).1 <= s.lsm.top;
    }
    assert SnapshotRead(s, k, 0, ValueWins) == HistRead(vs, 0) <==> Newest(s.lsm.cells, k, s.lsm.top) == None;
  }

  lemma {:induction false} NewestFinds(cells: Cells, k: Key, top: SeqNo)
    ensures Newest(cells, k, top) == None <==> forall c: SeqNo | c <= top :: (k, c) !in cells
    ensures Newest(cells, k, top).Some? ==> (k, Newest(cells, k, top).value) in cells
  {
    if top > 0 {
      NewestFinds(cells, k, top - 1);
    }
  }

  predicate InChain(chain: Chain, v: Version) {
    RecordOf(v, true) in chain || RecordOf(v, false) in chain
  }

  // No committed version is lost: it is in the chain, or its commit is in the LSM tree.
  lemma NothingIsLost(s0: State, steps: seq<Step>, s: State, k: Key, i: nat)
    requires Init(s0) && Run(s0, steps, s) && i < |HistOf(s, k).versions|
    ensures var vs := HistOf(s, k).versions;
            InChain(ChainOf(s.chains, k), vs[i])
            || CellAt(s.lsm.cells, k, vs[i].commit) == FlushedCell(vs, i) != None
  {
    Reachable(s0, steps, s);
    assert KeyInv(s, k);
    if i >= HistOf(s, k).dropped {
      RetainedInChain(ChainOf(s.chains, k), HistOf(s, k), i);
    } else {
      GroupHasMember(HistOf(s, k).versions, i);
      assert CommitFlushed(s.lsm, k, HistOf(s, k).versions, i);
    }
  }

  lemma RetainedInChain(chain: Chain, h: KeyHistory, i: nat)
    requires ChainInv(chain, h) && h.dropped <= i < |h.versions|
    ensures InChain(chain, h.versions[i])
  {
    LiveIsSubset(chain);
    var r := Live(chain)[i - h.dropped];
    assert r in chain && r == RecordOf(h.versions[i], i < h.flushed);
  }

  lemma {:induction false} LiveIsSubset(chain: Chain)
    ensures forall i | 0 <= i < |Live(chain)| :: Live(chain)[i] in chain
  {
    if chain != [] {
      var init := chain[..|chain| - 1];
      LiveIsSubset(init);
      assert chain == init + [chain[|chain| - 1]];
    }
  }

  // Strict two-phase locking orders the chains: without its aborted records a chain is its
  // committed versions by rising commit number, then the active records of one transaction.
  lemma ChainsAreOrdered(s0: State, steps: seq<Step>, s: State, k: Key, i: nat, j: nat)
    requires Init(s0) && Run(s0, steps, s)
    requires i < j < |Live(ChainOf(s.chains, k))|
    ensures var live := Live(ChainOf(s.chains, k));
            && (live[i].state == Active ==> live[j].state == Active && live[i].txn == live[j].txn)
            && (live[j].state == Committed ==> live[i].state == Committed && live[i].commit <= live[j].commit)
            && (live[j].state == Committed && live[j].flushed ==> live[i].flushed)
  {
    Reachable(s0, steps, s);
    assert KeyInv(s, k);
    var live := Live(ChainOf(s.chains, k));
    if live[i].state == Active {
      assert live[i] in live && live[j] in live;
      OneWriter(s, k, live[i], live[j]);
    }
  }

  // ---- transactions ----

  function OwnWrite(s: State, k: Key, t: TxnId): Option<Payload> {
    PayloadOf(LatestActive(ChainOf(s.chains, k), t))
  }

  // Visibility by transaction id and visibility by sequence number agree for every version
  // and every repeatable-read transaction, except for commits in flight when it began.
  lemma VisibilityOrdersAgree(s0: State, steps: seq<Step>, s: State, t: TxnId, k: Key, i: nat)
    requires Init(s0) && Run(s0, steps, s)
    requires t in s.txns && s.txns[t].view.policy == RepeatableRead && i < |HistOf(s, k).versions|
    ensures var v := HistOf(s, k).versions[i];
            var h := s.txns[t];
            IsVisible(h.view, v.txn, true, false) <==> v.commit <= h.readSeq && v.txn !in h.inflight
  {
    Reachable(s0, steps, s);
    assert KeyInv(s, k) && ViewsAgree(s, k) && ViewInv(s, t);
    assert AgreeAt(s.txns[t], HistOf(s, k).versions[i]);
  }

  lemma {:induction false} LatestActiveInLive(chain: Chain, t: TxnId)
    ensures LatestActive(chain, t) == LatestActive(Live(chain), t)
  {
    if chain != [] {
      var init, r := chain[..|chain| - 1], chain[|chain| - 1];
      LatestActiveInLive(init, t);
      if r.state == Aborted {
        assert Live(chain) == Live(init);
      } else {
        assert Live(chain)[..|Live(chain)| - 1] == Live(init);
      }
    }
  }

  // Only the active tail matters for own writes.
  lemma {:induction false} LatestActiveInTail(live: Chain, n: nat, t: TxnId)
    requires n <= |live| && forall i | 0 <= i < n :: live[i].state != Active
    ensures LatestActive(live, t) == LatestActive(live[n..], t)
    decreases |live|
  {
    if n < |live| {
      LatestActiveInTail(live[..|live| - 1], n, t);
      assert live[n..][..|live[n..]| - 1] == live[..|live| - 1][n..];
    } else if live != [] {
      LatestActiveInTail(live[..|live| - 1], n - 1, t);
      assert live[n..] == [] && live[..|live| - 1][n - 1..] == [];
    }
  }

  // No commit that was in flight when t began has put a version of the key where t's reads
  // in the tree would find it. A read-committed transaction has no such trouble.
  predicate QuietKey(s: State, t: TxnId, k: Key) {
    && t in s.txns
    && (s.txns[t].view.policy == RepeatableRead ==>
          forall i | 0 <= i < |HistOf(s, k).versions| && HistOf(s, k).versions[i].commit <= s.txns[t].readSeq ::
            HistOf(s, k).versions[i].txn !in s.txns[t].inflight)
  }

  // A transaction reads its own latest write, else what a snapshot at its LSM sequence reads.
  lemma TxnReadIsSnapshotRead(s: State, k: Key, t: TxnId, tie: Tie)
    requires Inv(s) && QuietKey(s, t, k)
    ensures TxnRead(s, k, t, tie) == if OwnWrite(s, k, t).Some? then OwnWrite(s, k, t)
                                     else SnapshotRead(s, k, LsmReadSeq(s, s.txns[t]), tie)
  {
    assert KeyInv(s, k) && ViewInv(s, t);
    if Owns(s, k, t) {
      OwnerReadsOwn(s, k, t);
    } else {
      OthersReadVersions(s, k, t);
    }
  }

  lemma OwnerReadsOwn(s: State, k: Key, t: TxnId)
    requires Inv(s) && t in s.txns && Owns(s, k, t)
    ensures Visible(ChainOf(s.chains, k), s.txns[t].view) == LatestActive(ChainOf(s.chains, k), t) != None
  {
    assert KeyInv(s, k) && ViewInv(s, t);
    var chain, view := ChainOf(s.chains, k), s.txns[t].view;
    VisibleInLive(chain, view);
    LatestActiveInLive(chain, t);
    OwnerOwnsAll(s, k, t);
    OwnerReadsLast(Live(chain), |HistOf(s, k).versions| - HistOf(s, k).dropped, view);
  }

  lemma OthersReadVersions(s: State, k: Key, t: TxnId)
    requires Inv(s) && QuietKey(s, t, k) && !Owns(s, k, t)
    ensures LatestActive(ChainOf(s.chains, k), t) == None
    ensures Visible(ChainOf(s.chains, k), s.txns[t].view)
         == VisibleAt(ChainOf(s.chains, k), LsmReadSeq(s, s.txns[t]))
  {
    assert KeyInv(s, k) && ViewInv(s, t);
    var chain := ChainOf(s.chains, k);
    var live := Live(chain);
    forall i | 0 <= i < |live| && live[i].state == Active
      ensures live[i].txn != t
    {
      assert live[i] in live;
    }
    LatestActiveInLive(chain, t);
    NoOwnWrite(live, t);
    VisibleInLive(chain, s.txns[t].view);
    VisibleAtInLive(chain, LsmReadSeq(s, s.txns[t]));
    SeenVersions(s, k, t, live);
    ViewReadsLikeSnapshot(live, s.txns[t].view, LsmReadSeq(s, s.txns[t]));
  }

  lemma SeenVersions(s: State, k: Key, t: TxnId, live: Chain)
    requires Inv(s) && QuietKey(s, t, k) && live == Live(ChainOf(s.chains, k))
    requires forall i | 0 <= i < |live| && live[i].state == Active :: live[i].txn != t
    ensures forall i | 0 <= i < |live| ::
      Sees(s.txns[t].view, live[i]) <==> live[i].state == Committed && live[i].commit <= LsmReadSeq(s, s.txns[t])
  {
    assert KeyInv(s, k) && ViewsAgree(s, k) && ViewInv(s, t);
    var h, hd := HistOf(s, k), s.txns[t];
    forall i | 0 <= i < |live|
      ensures Sees(hd.view, live[i]) <==> live[i].state == Committed && live[i].commit <= LsmReadSeq(s, hd)
    {
      if i < |h.versions| - h.dropped && hd.view.policy == RepeatableRead {
        assert AgreeAt(hd, h.versions[h.dropped + i]);
      }
    }
  }

  lemma OwnerReadsLast(live: Chain, n: nat, v: ReadView)
    requires n <= |live| && AllActiveBy(live, v.me)
    requires exists r :: r in live && r.state == Active
    requires forall i | 0 <= i < n :: live[i].state == Committed
    requires forall i | n <= i < |live| :: live[i].state == Active
    ensures Visible(live, v) == LatestActive(live, v.me) == Some(live[|live| - 1])
  {
    var r :| r in live && r.state == Active;
    var i :| 0 <= i < |live| && live[i] == r;
    assert live[|live| - 1] in live;
  }

  lemma {:induction false} NoOwnWrite(live: Chain, t: TxnId)
    requires forall i | 0 <= i < |live| :: live[i].state != Active || live[i].txn != t
    ensures LatestActive(live, t) == None
  {
    if live != [] {
      NoOwnWrite(live[..|live| - 1], t);
    }
  }

  // ---- the background work ----

  predicate Background(step: Step) {
    step.FlushPick? || step.FlushWrite? || step.FlushDone? || step.FlushFail? || step.Gc?
  }

  // The active records of a key: what follows its retained versions.
  function ActiveTail(chain: Chain, h: KeyHistory): Chain {
    var live, n := Live(chain), |h.versions| - h.dropped;
    if 0 <= n <= |live| then live[n..] else []
  }

  lemma OwnWriteIsInTail(chain: Chain, h: KeyHistory, t: TxnId)
    requires ChainInv(chain, h)
    ensures LatestActive(chain, t) == LatestActive(ActiveTail(chain, h), t)
  {
    LatestActiveInLive(chain, t);
    LatestActiveInTail(Live(chain), |h.versions| - h.dropped, t);
  }

  lemma GcKeepsTail(chain: Chain, h: KeyHistory)
    requires ChainInv(chain, h)
    ensures ActiveTail(Collected(chain), h.(dropped := CollectedTo(h))) == ActiveTail(chain, h)
  {
    CollectKeepsLive(chain, h);
    CollectedToBounds(h);
    SuffixOfSuffix(Live(chain), CollectedTo(h) - h.dropped, |h.versions| - h.dropped);
  }

  lemma SuffixOfSuffix<T>(a: seq<T>, m: nat, n: nat)
    requires m <= n <= |a|
    ensures a[m..][n - m..] == a[n..]
  {
  }

  lemma MarkKeepsTail(chain: Chain, h: KeyHistory, k: Key, marks: set<(Key, SeqNo)>, goal: nat)
    requires ChainInv(chain, h)
    ensures ActiveTail(MarkBy(chain, k, marks), h.(flushed := goal)) == ActiveTail(chain, h)
  {
    LiveOfMark(chain, k, marks);
    var live, n := Live(chain), |h.versions| - h.dropped;
    assert MarkBy(live, k, marks)[n..] == live[n..];
  }

  lemma BackgroundKeepsTail(s: State, step: Step, k: Key)
    requires KeyInv(s, k) && Enabled(s, step) && Background(step)
    ensures HistOf(Apply(s, step), k).versions == HistOf(s, k).versions
    ensures ActiveTail(ChainOf(Apply(s, step).chains, k), HistOf(Apply(s, step), k))
         == ActiveTail(ChainOf(s.chains, k), HistOf(s, k))
  {
    var s' := Apply(s, step);
    var chain, h := ChainOf(s.chains, k), HistOf(s, k);
    if step.Gc? {
      GcKeepsTail(chain, h);
      assert HistOf(s', k) == h.(dropped := CollectedTo(h));
      assert ChainOf(s'.chains, k) == Collected(chain);
    } else if step.FlushDone? {
      var marks := set m | m in Marks(s.flight.items);
      MarksOneByOne(s.chains, Marks(s.flight.items), k);
      assert ChainOf(s'.chains, k) == MarkBy(chain, k, marks);
      var goal := if k in s.hist && k in s.flight.goals then s.flight.goals[k] else h.flushed;
      assert HistOf(s', k) == h.(flushed := goal);
      MarkKeepsTail(chain, h, k, marks, goal);
    }
  }

  lemma BackgroundKeepsOwnWrites(s: State, step: Step, k: Key, t: TxnId)
    requires KeyInv(s, k) && Enabled(s, step) && Background(step) && KeyInv(Apply(s, step), k)
    ensures OwnWrite(Apply(s, step), k, t) == OwnWrite(s, k, t)
  {
    OwnWriteIsInTail(ChainOf(s.chains, k), HistOf(s, k), t);
    OwnWriteIsInTail(ChainOf(Apply(s, step).chains, k), HistOf(Apply(s, step), k), t);
    BackgroundKeepsTail(s, step, k);
  }

  // ---- transactions that write each key at most once ----

  // The caller's side of the bargain: no second write of a key by one transaction.
  ghost predicate WritesOnce(s: State, step: Step) {
    step.DoWrite? ==> LatestActive(ChainOf(s.chains, step.key), step.txn) == None
  }

  ghost predicate RunOnce(s: State, steps: seq<Step>, s': State)
    decreases |steps|
  {
    if steps == [] then s == s'
    else Enabled(s, steps[0]) && WritesOnce(s, steps[0]) && RunOnce(Apply(s, steps[0]), steps[1..], s')
  }

  predicate Strict(vs: seq<Version>) {
    forall i, j | 0 <= i < j < |vs| :: vs[i].commit < vs[j].commit
  }

  predicate StrictKey(s: State, k: Key) {
    && Strict(HistOf(s, k).versions)
    && |Live(ChainOf(s.chains, k))| <= |HistOf(s, k).versions| - HistOf(s, k).dropped + 1
  }

  lemma StrictIsFaithful(vs: seq<Version>, q: SeqNo)
    requires Strict(vs)
    ensures FaithfulAt(vs, q)
  {
    var i := NewestIndex(vs, q);
    if i >= 0 {
      GroupOfStrict(vs, i);
    }
  }

  lemma TailHasOwner(live: Chain, h: KeyHistory, t: TxnId)
    requires LiveInv(live, h) && AllActiveBy(live, t) && |live| > |h.versions| - h.dropped
    ensures LatestActive(live, t) != None
  {
    assert live[|live| - 1] in live;
  }

  // The first writer of a key finds no active record there.
  lemma FirstWriteFindsNoTail(s: State, t: TxnId, k: Key)
    requires Locks.Inv(s.locks) && KeyInv(s, k) && Locks.Holds(s.locks, k, t, Locks.Exclusive)
    requires LatestActive(ChainOf(s.chains, k), t) == None
    ensures |Live(ChainOf(s.chains, k))| == |HistOf(s, k).versions| - HistOf(s, k).dropped
  {
    var live := Live(ChainOf(s.chains, k));
    LatestActiveInLive(ChainOf(s.chains, k), t);
    forall r | r in live && r.state == Active
      ensures r.txn == t
    {
      assert Owned(s, k, r);
      Locks.ExclusiveLeavesNoRoom(s.locks, k, r.txn, t, Locks.Exclusive);
    }
    if |live| > |HistOf(s, k).versions| - HistOf(s, k).dropped {
      TailHasOwner(live, HistOf(s, k), t);
    }
  }

  lemma WriteKeepsStrict(s: State, t: TxnId, key: Key, p: Payload, k: Key)
    requires Inv(s) && Enabled(s, DoWrite(t, key, p)) && WritesOnce(s, DoWrite(t, key, p)) && StrictKey(s, k)
    ensures StrictKey(Apply(s, DoWrite(t, key, p)), k)
  {
    assert KeyInv(s, k);
    if k == key {
      FirstWriteFindsNoTail(s, t, k);
      LiveOfAppend(ChainOf(s.chains, k), NewActive(p, t));
    }
  }

  // A commit moves at most the one active record over to the versions.
  lemma CommitMovesOne(chain: Chain, h: KeyHistory, t: TxnId, c: SeqNo)
    requires ChainInv(chain, h) && (AllActiveBy(Live(chain), t) || NewVersions(chain, t, c) == [])
    requires |Live(chain)| <= |h.versions| - h.dropped + 1
    ensures |NewVersions(chain, t, c)| <= 1
    ensures |Live(CommitChain(chain, t, c))| <= |h.versions + NewVersions(chain, t, c)| - h.dropped + 1
  {
    var live, n := Live(chain), |h.versions| - h.dropped;
    LiveOfCommit(chain, t, c);
    if AllActiveBy(live, t) {
      forall i | n <= i < |live|
        ensures live[i].txn == t
      {
        assert live[i] in live;
      }
      NewVersionsInLive(chain, t, c);
      NewVersionsOfTail(live, n, t, c);
    }
  }

  lemma PublishKeepsStrict(s: State, t: TxnId, k: Key)
    requires Inv(s) && Enabled(s, Publish(t)) && StrictKey(s, k)
    ensures StrictKey(Apply(s, Publish(t)), k)
  {
    hide Locks.Inv, FlightInv, ViewsAgree, ViewInv, NewVersions, CommitChain, Live;
    var c := s.prepared[t];
    assert KeyInv(s, k);
    PublishKeepsKey(s, t, k);
    ChainOfCommitAll(s.chains, t, c, k);
    HistOfPublish(s, t, k);
    if Owns(s, k, t) {
      OwnerOwnsAll(s, k, t);
    } else {
      UnownedChainUntouched(s, t, c, k);
    }
    CommitMovesOne(ChainOf(s.chains, k), HistOf(s, k), t, c);
    OneMoreStaysStrict(HistOf(s, k).versions, HistOf(Apply(s, Publish(t)), k).versions);
  }

  lemma OneMoreStaysStrict(vs: seq<Version>, vs': seq<Version>)
    requires Strict(vs) && |vs| <= |vs'| <= |vs| + 1 && vs'[..|vs|] == vs
    requires forall i, j | 0 <= i < |vs| <= j < |vs'| :: vs[i].commit < vs'[j].commit
    ensures Strict(vs')
  {
    forall i, j | 0 <= i < j < |vs'|
      ensures vs'[i].commit < vs'[j].commit
    {
      assert vs'[i] == vs[i];
      if j < |vs| {
        assert vs'[j] == vs[j];
      }
    }
  }

  lemma AbandonKeepsStrict(s: State, t: TxnId, k: Key)
    requires Inv(s) && Enabled(s, Abandon(t)) && StrictKey(s, k)
    ensures StrictKey(Apply(s, Abandon(t)), k)
  {
    assert KeyInv(s, k);
    ChainOfCommitAll(s.chains, t, 0, k);
    AbortShrinksLive(ChainOf(s.chains, k), t);
    assert HistOf(Apply(s, Abandon(t)), k) == HistOf(s, k);
  }

  lemma {:induction false} AbortShrinksLive(chain: Chain, t: TxnId)
    ensures |Live(AbortChain(chain, t))| <= |Live(chain)|
  {
    if chain != [] {
      AbortShrinksLive(chain[..|chain| - 1], t);
      assert AbortChain(chain, t)[..|chain| - 1] == AbortChain(chain[..|chain| - 1], t);
    }
  }

  lemma BackgroundKeepsStrict(s: State, step: Step, k: Key)
    requires Enabled(s, step) && Background(step) && StrictKey(s, k)
    requires KeyInv(s, k) && KeyInv(Apply(s, step), k)
    ensures StrictKey(Apply(s, step), k)
  {
    BackgroundKeepsTail(s, step, k);
    TailLength(ChainOf(s.chains, k), HistOf(s, k));
    TailLength(ChainOf(Apply(s, step).chains, k), HistOf(Apply(s, step), k));
  }

  lemma TailLength(chain: Chain, h: KeyHistory)
    requires ChainInv(chain, h)
    ensures |Live(chain)| == |h.versions| - h.dropped + |ActiveTail(chain, h)|
  {
  }

  lemma StepKeepsStrict(s: State, step: Step, k: Key)
    requires Inv(s) && Enabled(s, step) && WritesOnce(s, step) && StrictKey(s, k)
    ensures StrictKey(Apply(s, step), k)
  {
    hide KeyInv;
    match step
    case DoWrite(t, key, p) => WriteKeepsStrict(s, t, key, p, k);
    case Publish(t) => PublishKeepsStrict(s, t, k);
    case Abandon(t) => AbandonKeepsStrict(s, t, k);
    case LockStep(l) =>
    case Begin(policy) =>
    case Prepare(t) =>
    case _ =>
      StepKeepsInv(s, step);
      assert KeyInv(s, k) && KeyInv(Apply(s, step), k);
      BackgroundKeepsStrict(s, step, k);
  }

  lemma {:induction false} RunKeepsStrict(s: State, steps: seq<Step>, s': State, k: Key)
    requires Inv(s) && RunOnce(s, steps, s') && StrictKey(s, k)
    ensures Inv(s') && StrictKey(s', k)
    decreases |steps|
  {
    if steps != [] {
      StepKeepsInv(s, steps[0]);
      StepKeepsStrict(s, steps[0], k);
      RunKeepsStrict(Apply(s, steps[0]), steps[1..], s', k);
    }
  }

  lemma OnceRunIsStrict(s0: State, steps: seq<Step>, s: State, k: Key)
    requires Init(s0) && RunOnce(s0, steps, s)
    ensures Inv(s) && StrictKey(s, k)
  {
    InitInv(s0);
    assert RecoveredKey(s0, k);
    RunKeepsStrict(s0, steps, s, k);
  }

  // If no transaction writes a key twice, chain and LSM tree together are the history: for
  // every key, every sequence from 1 on, in every reachable state. At sequence 0 they are
  // while the tree has nothing of the key.
  lemma EngineRefinesHistory(s0: State, steps: seq<Step>, s: State, k: Key, seqno: SeqNo)
    requires Init(s0) && RunOnce(s0, steps, s)
    ensures ReadsHistory(s, k, seqno) <==> 1 <= seqno || forall c :: (k, c) !in s.lsm.cells
  {
    OnceRunIsStrict(s0, steps, s, k);
    StrictIsFaithful(HistOf(s, k).versions, seqno);
    SnapshotReadExact(s, k, seqno);
  }

  // The same for a transaction: its own write, else the history at its read sequence.
  lemma TransactionsReadHistory(s0: State, steps: seq<Step>, s: State, k: Key, t: TxnId, tie: Tie)
    requires Init(s0) && RunOnce(s0, steps, s) && QuietKey(s, t, k) && 1 <= LsmReadSeq(s, s.txns[t])
    ensures TxnRead(s, k, t, tie) == if OwnWrite(s, k, t).Some? then OwnWrite(s, k, t)
                                     else HistRead(HistOf(s, k).versions, LsmReadSeq(s, s.txns[t]))
  {
    OnceRunIsStrict(s0, steps, s, k);
    EngineRefinesHistory(s0, steps, s, k, LsmReadSeq(s, s.txns[t]));
    TxnReadIsSnapshotRead(s, k, t, tie);
  }
}
