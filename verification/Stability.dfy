/** What readers can rely on across every run. */
module Stability {
  import opened Types
  import opened VersionChain
  import opened Lsm
  import opened History
  import opened Engine
  import opened ChainLemmas
  import opened EngineInvariant
  import opened EngineTheorems
  import Locks

  // ---- own writes ----

  lemma {:induction false} LatestActiveIn(chain: Chain, t: TxnId)
    ensures LatestActive(chain, t).Some? ==>
      var r := LatestActive(chain, t).value; r in chain && r.state == Active && r.txn == t
  {
    if chain != [] {
      LatestActiveIn(chain[..|chain| - 1], t);
      assert forall r | r in chain[..|chain| - 1] :: r in chain;
    }
  }

  lemma OwnsIsOwnWrite(s: State, k: Key, t: TxnId)
    ensures Owns(s, k, t) <==> OwnWrite(s, k, t).Some?
  {
    var live := Live(ChainOf(s.chains, k));
    LatestActiveInLive(ChainOf(s.chains, k), t);
    LatestActiveIn(live, t);
    if !Owns(s, k, t) {
      forall i | 0 <= i < |live|
        ensures live[i].state != Active || live[i].txn != t
      {
        assert live[i] in live;
      }
      NoOwnWrite(live, t);
    } else {
      var r :| r in live && r.state == Active && r.txn == t;
      ActiveMeansLatest(live, t, r);
    }
  }

  lemma {:induction false} ActiveMeansLatest(chain: Chain, t: TxnId, r: Record)
    requires r in chain && r.state == Active && r.txn == t
    ensures LatestActive(chain, t).Some?
  {
    var init, last := chain[..|chain| - 1], chain[|chain| - 1];
    assert chain == init + [last];
    if last.state != Active || last.txn != t {
      ActiveMeansLatest(init, t, r);
    }
  }

  lemma {:induction false} LatestActiveOfCommit(chain: Chain, t: TxnId, c: SeqNo, u: TxnId)
    requires u != t
    ensures LatestActive(CommitChain(chain, t, c), u) == LatestActive(chain, u)
    ensures LatestActive(AbortChain(chain, t), u) == LatestActive(chain, u)
  {
    if chain != [] {
      var init := chain[..|chain| - 1];
      LatestActiveOfCommit(init, t, c, u);
      assert CommitChain(chain, t, c)[..|init|] == CommitChain(init, t, c);
      assert AbortChain(chain, t)[..|init|] == AbortChain(init, t);
    }
  }

  // A step that is not u's own write, commit or end leaves u's pending write of the key.
  ghost predicate Concerns(step: Step, k: Key, u: TxnId) {
    match step
    case DoWrite(t, key, _) => t == u && key == k
    case Publish(t) => t == u
    case Abandon(t) => t == u
    case _ => false
  }

  lemma OwnWriteKept(s: State, step: Step, k: Key, u: TxnId)
    requires Inv(s) && Enabled(s, step) && !Concerns(step, k, u)
    ensures OwnWrite(Apply(s, step), k, u) == OwnWrite(s, k, u)
  {
    hide Inv;
    if Background(step) {
      StepKeepsInv(s, step);
      InvKey(s, k);
      InvKey(Apply(s, step), k);
      BackgroundKeepsOwnWrites(s, step, k, u);
    } else {
      ForegroundKeepsOwnWrites(s, step, k, u);
    }
  }

  lemma InvKey(s: State, k: Key)
    requires Inv(s)
    ensures KeyInv(s, k) && ViewsAgree(s, k)
  {
  }

  lemma ForegroundKeepsOwnWrites(s: State, step: Step, k: Key, u: TxnId)
    requires Enabled(s, step) && !Background(step) && !Concerns(step, k, u)
    ensures OwnWrite(Apply(s, step), k, u) == OwnWrite(s, k, u)
  {
    var chain := ChainOf(s.chains, k);
    match step
    case DoWrite(t, key, p) =>
      if key == k {
        assert (chain + [NewActive(p, t)])[..|chain|] == chain;
      }
    case Publish(t) =>
      ChainOfCommitAll(s.chains, t, s.prepared[t], k);
      LatestActiveOfCommit(chain, t, s.prepared[t], u);
    case Abandon(t) =>
      ChainOfCommitAll(s.chains, t, 0, k);
      LatestActiveOfCommit(chain, t, 0, u);
    case _ =>
  }

  // A transaction reads what it wrote last, until it writes the key again or ends ...
  lemma WriteIsReadBack(s: State, t: TxnId, k: Key, p: Payload, tie: Tie)
    requires Inv(s) && Enabled(s, DoWrite(t, k, p))
    ensures TxnRead(Apply(s, DoWrite(t, k, p)), k, t, tie) == Some(p)
  {
    hide Inv, Locks.Holds, CellInv, HistInv, FlightInv;
    StepKeepsInv(s, DoWrite(t, k, p));
    var s' := Apply(s, DoWrite(t, k, p));
    LiveOfAppend(ChainOf(s.chains, k), NewActive(p, t));
    LatestOfAppend(ChainOf(s.chains, k), NewActive(p, t), t);
    var live := Live(ChainOf(s'.chains, k));
    assert live[|live| - 1] in live;
    OwnerReadsOwn(s', k, t);
  }

  lemma LatestOfAppend(chain: Chain, r: Record, t: TxnId)
    requires r.state == Active && r.txn == t
    ensures LatestActive(chain + [r], t) == Some(r)
  {
  }

  // ... and nobody else reads it.
  lemma WriteIsUnseen(s: State, t: TxnId, k: Key, p: Payload, k': Key, u: TxnId, tie: Tie)
    requires Inv(s) && Enabled(s, DoWrite(t, k, p)) && u in s.txns && (u != t || k' != k)
    ensures TxnRead(Apply(s, DoWrite(t, k, p)), k', u, tie) == TxnRead(s, k', u, tie)
  {
    hide Inv, Locks.Holds, Visible;
    OpenIsMe(s, u);
    if k' == k {
      VisibleOfAppend(ChainOf(s.chains, k), NewActive(p, t), s.txns[u].view);
    }
  }

  lemma OpenIsMe(s: State, u: TxnId)
    requires Inv(s) && u in s.txns
    ensures s.txns[u].view.me == u
  {
    hide KeyInv, ViewsAgree, FlightInv, Locks.Inv;
    assert ViewInv(s, u);
  }

  lemma VisibleOfAppend(chain: Chain, r: Record, v: ReadView)
    requires !Sees(v, r)
    ensures Visible(chain + [r], v) == Visible(chain, v)
  {
    assert (chain + [r])[..|chain|] == chain;
  }

  // Committed or abandoned, a transaction is gone: it has no pending write and no lock.
  lemma EndLeavesNothing(s: State, step: Step, k: Key, kind: Locks.LockType)
    requires Inv(s) && Enabled(s, step) && (step.Publish? || step.Abandon?)
    ensures var t, s' := step.txn, Apply(s, step);
            && t !in s'.txns && t !in s'.prepared && !Owns(s', k, t) && OwnWrite(s', k, t) == None
            && !Locks.Holds(s'.locks, k, t, kind)
  {
    hide Inv, Locks.Holds;
    StepKeepsInv(s, step);
    InvKey(Apply(s, step), k);
    OwnsIsOwnWrite(Apply(s, step), k, step.txn);
    Locks.EndReleasesItsOwn(s.locks, step.txn, k, step.txn, kind);
  }

  // ---- a key settled up to a sequence ----

  // Histories only grow by commits a reader at q must not see.
  ghost predicate GrowsAbove(vs: seq<Version>, vs': seq<Version>, q: SeqNo) {
    && |vs| <= |vs'| && vs'[..|vs|] == vs
    && forall i | |vs| <= i < |vs'| :: vs'[i].commit > q
  }

  // No commit at or before q that has written the key is still in flight.
  ghost predicate KeySettled(s: State, k: Key, q: SeqNo) {
    q < s.nextSeq && forall u | u in s.prepared :: q < s.prepared[u] || !Owns(s, k, u)
  }

  lemma StepKeepsSettled(s: State, step: Step, k: Key, q: SeqNo)
    requires Inv(s) && Enabled(s, step) && KeySettled(s, k, q)
    ensures KeySettled(Apply(s, step), k, q)
  {
    hide Inv, Owns;
    var s' := Apply(s, step);
    forall u | u in s'.prepared && s'.prepared[u] <= q
      ensures !Owns(s', k, u)
    {
      StillPrepared(s, step, u, q);
      OwnWriteKept(s, step, k, u);
      OwnsIsOwnWrite(s, k, u);
      OwnsIsOwnWrite(s', k, u);
    }
  }

  lemma StillPrepared(s: State, step: Step, u: TxnId, q: SeqNo)
    requires Enabled(s, step) && q < s.nextSeq && u in Apply(s, step).prepared && Apply(s, step).prepared[u] <= q
    ensures u in s.prepared && s.prepared[u] == Apply(s, step).prepared[u] && forall k :: !Concerns(step, k, u)
  {
  }

  lemma StepGrowsAbove(s: State, step: Step, k: Key, q: SeqNo)
    requires Inv(s) && Enabled(s, step) && KeySettled(s, k, q)
    ensures GrowsAbove(HistOf(s, k).versions, HistOf(Apply(s, step), k).versions, q)
    ensures HistOf(s, k).flushed <= HistOf(Apply(s, step), k).flushed
  {
    hide KeyInv, ViewsAgree, Locks.Inv, FlightInv;
    match step
    case Publish(t) => PublishGrowsAbove(s, t, k, q);
    case FlushDone => FlushOnlyRaises(s, k);
    case _ =>
  }

  lemma FlushOnlyRaises(s: State, k: Key)
    requires Inv(s) && Enabled(s, FlushDone)
    ensures HistOf(Apply(s, FlushDone), k).versions == HistOf(s, k).versions
    ensures HistOf(s, k).flushed <= HistOf(Apply(s, FlushDone), k).flushed
  {
    hide KeyInv, ViewsAgree, ViewInv;
  }

  lemma PublishGrowsAbove(s: State, t: TxnId, k: Key, q: SeqNo)
    requires Inv(s) && Enabled(s, Publish(t)) && KeySettled(s, k, q)
    ensures GrowsAbove(HistOf(s, k).versions, HistOf(Apply(s, Publish(t)), k).versions, q)
    ensures HistOf(s, k).flushed == HistOf(Apply(s, Publish(t)), k).flushed
  {
    hide Inv, Owns, CommitAll, GrowsAbove, NewVersions;
    HistOfPublish(s, t, k);
    var vs, nv := HistOf(s, k).versions, NewVersions(ChainOf(s.chains, k), t, s.prepared[t]);
    if Owns(s, k, t) {
      NewAreCommitted(ChainOf(s.chains, k), t, s.prepared[t]);
    } else {
      InvKey(s, k);
      UnownedChainUntouched(s, t, s.prepared[t], k);
    }
    AppendGrows(vs, nv, q);
  }

  lemma AppendGrows(vs: seq<Version>, nv: seq<Version>, q: SeqNo)
    requires forall i | 0 <= i < |nv| :: nv[i].commit > q
    ensures GrowsAbove(vs, vs + nv, q)
  {
  }

  lemma {:induction false} NewAreCommitted(chain: Chain, t: TxnId, c: SeqNo)
    ensures forall i | 0 <= i < |NewVersions(chain, t, c)| :: NewVersions(chain, t, c)[i].commit == c
  {
    if chain != [] {
      NewAreCommitted(chain[..|chain| - 1], t, c);
    }
  }

  lemma GrowsAboveTwice(a: seq<Version>, b: seq<Version>, d: seq<Version>, q: SeqNo)
    requires GrowsAbove(a, b, q) && GrowsAbove(b, d, q)
    ensures GrowsAbove(a, d, q)
  {
    assert d[..|a|] == d[..|b|][..|a|];
    forall i | |a| <= i < |d|
      ensures d[i].commit > q
    {
      if i < |b| {
        assert d[i] == d[..|b|][i] == b[i];
      }
    }
  }

  lemma {:induction false} RunKeepsSettled(s: State, steps: seq<Step>, s': State, k: Key, q: SeqNo)
    requires Inv(s) && Run(s, steps, s') && KeySettled(s, k, q)
    ensures Inv(s') && KeySettled(s', k, q) && GrowsAbove(HistOf(s, k).versions, HistOf(s', k).versions, q)
    ensures HistOf(s, k).flushed <= HistOf(s', k).flushed
    decreases |steps|
  {
    hide Inv, KeySettled, GrowsAbove;
    if steps == [] {
      GrowsNot(HistOf(s, k).versions, q);
    } else {
      var s1 := Apply(s, steps[0]);
      StepKeepsInv(s, steps[0]);
      StepKeepsSettled(s, steps[0], k, q);
      StepGrowsAbove(s, steps[0], k, q);
      RunKeepsSettled(s1, steps[1..], s', k, q);
      GrowsAboveTwice(HistOf(s, k).versions, HistOf(s1, k).versions, HistOf(s', k).versions, q);
    }
  }

  lemma GrowsNot(vs: seq<Version>, q: SeqNo)
    ensures GrowsAbove(vs, vs, q)
  {
  }

  lemma GrownReadsSame(vs: seq<Version>, vs': seq<Version>, q: SeqNo)
    requires GrowsAbove(vs, vs', q)
    ensures NewestIndex(vs', q) == NewestIndex(vs, q) && HistRead(vs', q) == HistRead(vs, q)
    ensures var i := NewestIndex(vs, q);
            i >= 0 ==> vs'[i] == vs[i] && Group(vs', vs[i].commit) == Group(vs, vs[i].commit)
  {
    var ws, i := vs'[|vs|..], NewestIndex(vs, q);
    assert vs' == vs + ws;
    NewestOfConcat(vs, ws, q);
    if i >= 0 {
      GroupOfConcat(vs, ws, vs[i].commit);
      GroupOfOthers(ws, vs[i].commit);
      assert Group(vs, vs[i].commit) + [] == Group(vs, vs[i].commit);
    }
  }

  // ---- snapshots across runs ----

  // Where the answer is read back right from the tree now, it is the history's in every state
  // the key's history grows to above q.
  lemma AnswersAreTheHistory(s: State, k: Key, q: SeqNo, tie: Tie)
    requires Inv(s) && 1 <= q && FaithfulAt(HistOf(s, k).versions, q)
    ensures SnapshotRead(s, k, q, tie) == HistRead(HistOf(s, k).versions, q)
  {
    hide Inv, SnapshotRead;
    SnapshotReadExact(s, k, q);
  }

  // A snapshot taken at q gives one answer for a key for ever, while commits, aborts, flushes
  // and collections go on, if no commit up to q that has written the key is in flight.
  lemma SnapshotIsStable(s: State, steps: seq<Step>, s': State, k: Key, q: SeqNo, tie: Tie, tie': Tie)
    requires Inv(s) && Run(s, steps, s') && KeySettled(s, k, q)
    requires 1 <= q && FaithfulAt(HistOf(s, k).versions, q)
    ensures SnapshotRead(s', k, q, tie') == SnapshotRead(s, k, q, tie)
  {
    hide Inv, SnapshotRead, KeySettled, GrowsAbove;
    RunKeepsSettled(s, steps, s', k, q);
    GrownReadsSame(HistOf(s, k).versions, HistOf(s', k).versions, q);
    AnswersAreTheHistory(s, k, q, tie);
    AnswersAreTheHistory(s', k, q, tie');
  }

  // If such a commit is in flight, its publication is what the snapshot then reads.
  lemma InflightCommitShows(s: State, t: TxnId, k: Key, q: SeqNo)
    requires Inv(s) && t in s.prepared && s.prepared[t] <= q < s.nextSeq && Owns(s, k, t)
    ensures Enabled(s, Publish(t))
    ensures var vs, vs' := HistOf(s, k).versions, HistOf(Apply(s, Publish(t)), k).versions;
            NewestIndex(vs', q) >= |vs| && HistRead(vs', q) == OwnWrite(s, k, t) != None
  {
    hide ViewInv, ViewsAgree, KeyInv;
    OwnsIsOwnWrite(s, k, t);
    HistOfPublish(s, t, k);
    NewAreCommitted(ChainOf(s.chains, k), t, s.prepared[t]);
    LatestIsLastNew(ChainOf(s.chains, k), t, s.prepared[t]);
  }

  lemma {:induction false} LatestIsLastNew(chain: Chain, t: TxnId, c: SeqNo)
    ensures LatestActive(chain, t).None? <==> NewVersions(chain, t, c) == []
    ensures LatestActive(chain, t).Some? ==>
      var nv := NewVersions(chain, t, c);
      nv[|nv| - 1].payload == LatestActive(chain, t).value.payload
  {
    if chain != [] {
      LatestIsLastNew(chain[..|chain| - 1], t, c);
    }
  }

  // So one version answers at q from now on exactly if the key is settled there.
  lemma StableExactlyIfSettled(s: State, k: Key, q: SeqNo)
    requires Inv(s) && q < s.nextSeq
    ensures KeySettled(s, k, q) <==>
              forall s' | Leads(s, s') :: NewestIndex(HistOf(s', k).versions, q) == NewestIndex(HistOf(s, k).versions, q)
  {
    hide Inv, Owns;
    if KeySettled(s, k, q) {
      forall s' | Leads(s, s')
        ensures NewestIndex(HistOf(s', k).versions, q) == NewestIndex(HistOf(s, k).versions, q)
      {
        var steps :| Run(s, steps, s');
        RunKeepsSettled(s, steps, s', k, q);
        GrownReadsSame(HistOf(s, k).versions, HistOf(s', k).versions, q);
      }
    } else {
      var t :| t in s.prepared && s.prepared[t] <= q && Owns(s, k, t);
      InflightCommitShows(s, t, k, q);
      OneStep(s, Publish(t));
    }
  }

  // ---- repeatable reads ----

  lemma {:induction false} HandleStays(s: State, steps: seq<Step>, s': State, t: TxnId)
    requires Inv(s) && Run(s, steps, s') && t < s.nextTxn
    ensures t !in s.txns ==> t !in s'.txns
    ensures t in s.txns && t in s'.txns ==> s'.txns[t] == s.txns[t]
    decreases |steps|
  {
    if steps != [] {
      StepKeepsInv(s, steps[0]);
      HandleStep(s, steps[0], t);
      HandleStays(Apply(s, steps[0]), steps[1..], s', t);
    }
  }

  lemma HandleStep(s: State, step: Step, t: TxnId)
    requires Enabled(s, step) && t < s.nextTxn
    ensures t < Apply(s, step).nextTxn && (t !in s.txns ==> t !in Apply(s, step).txns)
    ensures t in s.txns && t in Apply(s, step).txns ==> Apply(s, step).txns[t] == s.txns[t]
  {
  }

  // The steps hold no write of k by t.
  predicate NoWriteOf(steps: seq<Step>, t: TxnId, k: Key) {
    forall i | 0 <= i < |steps| :: steps[i].DoWrite? ==> steps[i].txn != t || steps[i].key != k
  }

  lemma {:induction false} OwnWriteStays(s: State, steps: seq<Step>, s': State, t: TxnId, k: Key)
    requires Inv(s) && Run(s, steps, s') && NoWriteOf(steps, t, k) && t in s.txns && t in s'.txns && t < s.nextTxn
    ensures OwnWrite(s', k, t) == OwnWrite(s, k, t)
    decreases |steps|
  {
    hide Inv;
    if steps != [] {
      var s1 := Apply(s, steps[0]);
      StepKeepsInv(s, steps[0]);
      HandleStep(s, steps[0], t);
      HandleStays(s1, steps[1..], s', t);
      StaysOpen(s, steps[0], k, t);
      OwnWriteKept(s, steps[0], k, t);
      OwnWriteStays(s1, steps[1..], s', t, k);
    }
  }

  lemma StaysOpen(s: State, step: Step, k: Key, t: TxnId)
    requires Enabled(s, step) && t in Apply(s, step).txns && t < s.nextTxn
    requires step.DoWrite? ==> step.txn != t || step.key != k
    ensures !Concerns(step, k, t)
  {
  }

  // No commit in flight when t began has written the key, or will: what was in flight is
  // either published without a version of it, or still in flight without a pending one.
  ghost predicate QuietFor(s: State, t: TxnId, k: Key) {
    && QuietKey(s, t, k)
    && forall u | u in s.txns[t].inflight && u in s.prepared :: !Owns(s, k, u)
  }

  lemma QuietIsSettled(s: State, t: TxnId, k: Key)
    requires Inv(s) && t in s.txns && s.txns[t].view.policy == RepeatableRead && QuietFor(s, t, k)
    ensures KeySettled(s, k, s.txns[t].readSeq) && t < s.nextTxn
  {
    hide KeyInv, ViewsAgree, FlightInv, Owns;
    assert ViewInv(s, t);
  }

  lemma QuietStays(s: State, s': State, t: TxnId, k: Key)
    requires QuietKey(s, t, k) && t in s'.txns && s'.txns[t] == s.txns[t]
    requires GrowsAbove(HistOf(s, k).versions, HistOf(s', k).versions, s.txns[t].readSeq)
    ensures QuietKey(s', t, k)
  {
    var vs, vs' := HistOf(s, k).versions, HistOf(s', k).versions;
    forall i | 0 <= i < |vs'| && vs'[i].commit <= s.txns[t].readSeq
      ensures i < |vs| && vs'[i] == vs[i]
    {
    }
  }

  // Repeatable read: whatever begins, commits, aborts, is flushed or collected in between, two
  // reads of a key the transaction does not itself write in between give the same answer.
  lemma RepeatableReads(s: State, steps: seq<Step>, s': State, t: TxnId, k: Key, tie: Tie, tie': Tie)
    requires Inv(s) && Run(s, steps, s') && NoWriteOf(steps, t, k)
    requires t in s.txns && t in s'.txns && s.txns[t].view.policy == RepeatableRead
    requires QuietFor(s, t, k) && 1 <= s.txns[t].readSeq && FaithfulAt(HistOf(s, k).versions, s.txns[t].readSeq)
    ensures TxnRead(s', k, t, tie') == TxnRead(s, k, t, tie)
  {
    hide Inv, KeySettled, GrowsAbove, FaithfulAt, TxnRead, SnapshotRead, QuietKey;
    var q := s.txns[t].readSeq;
    QuietIsSettled(s, t, k);
    RunKeepsSettled(s, steps, s', k, q);
    HandleStays(s, steps, s', t);
    OwnWriteStays(s, steps, s', t, k);
    QuietStays(s, s', t, k);
    SnapshotIsStable(s, steps, s', k, q, tie, tie');
    TxnReadIsSnapshotRead(s, k, t, tie);
    TxnReadIsSnapshotRead(s', k, t, tie');
  }

  // From the opening of the engine on, with every key written once by a transaction.
  lemma RepeatableReadsOnce(s0: State, before: seq<Step>, s: State, steps: seq<Step>, s': State, t: TxnId, k: Key, tie: Tie, tie': Tie)
    requires Init(s0) && RunOnce(s0, before, s) && Run(s, steps, s') && NoWriteOf(steps, t, k)
    requires t in s.txns && t in s'.txns && s.txns[t].view.policy == RepeatableRead
    requires QuietFor(s, t, k) && 1 <= s.txns[t].readSeq
    ensures TxnRead(s', k, t, tie') == TxnRead(s, k, t, tie)
  {
    hide Inv, TxnRead, QuietFor, FaithfulAt;
    OnceRunIsStrict(s0, before, s, k);
    StrictIsFaithful(HistOf(s, k).versions, s.txns[t].readSeq);
    RepeatableReads(s, steps, s', t, k, tie, tie');
  }

  // ---- the isolation level asked for ----

  // The newest committed version of a key.
  function NewestCommitted(s: State, k: Key): Option<Payload> {
    var vs := HistOf(s, k).versions;
    if vs == [] then None else Some(vs[|vs| - 1].payload)
  }

  lemma NewestIsCurrent(s: State, k: Key)
    requires Inv(s)
    ensures HistRead(HistOf(s, k).versions, Current(s)) == NewestCommitted(s, k)
  {
    hide CellInv, ChainInv, OwnerInv, ViewsAgree, ViewInv, FlightInv, Locks.Inv;
    assert KeyInv(s, k);
  }

  // Begin gives the transaction the level asked for and the numbers of that moment.
  lemma BeginGives(s: State, policy: Policy, steps: seq<Step>, s': State)
    requires Inv(s) && Run(Apply(s, Begin(policy)), steps, s') && s.nextTxn in s'.txns
    ensures Inv(Apply(s, Begin(policy))) && Inv(s')
    ensures var t := s.nextTxn;
            && t in Apply(s, Begin(policy)).txns && s'.txns[t] == Apply(s, Begin(policy)).txns[t]
            && s'.txns[t].view.policy == policy && s'.txns[t].readSeq == Current(s)
            && s'.txns[t].inflight == s.prepared.Keys
  {
    hide Inv;
    StepKeepsInv(s, Begin(policy));
    RunKeepsInv(Apply(s, Begin(policy)), steps, s');
    HandleStays(Apply(s, Begin(policy)), steps, s', s.nextTxn);
  }

  // The answers of t for k, wherever the records of the tree have got to.
  ghost predicate Answers(s: State, k: Key, t: TxnId, answer: Option<Payload>)
    requires t in s.txns
  {
    forall tie :: TxnRead(s, k, t, tie) == answer
  }

  lemma AnswersWithout(s: State, k: Key, t: TxnId)
    requires Inv(s) && QuietKey(s, t, k) && OwnWrite(s, k, t) == None
    ensures Answers(s, k, t, HistRead(HistOf(s, k).versions, LsmReadSeq(s, s.txns[t])))
       <==> Sound(s, k, LsmReadSeq(s, s.txns[t]))
  {
    hide Inv, TxnRead, SnapshotRead, LsmReadSeq, Sound, OwnWrite;
    var q := LsmReadSeq(s, s.txns[t]);
    SnapshotReadExact(s, k, q);
    forall tie
      ensures TxnRead(s, k, t, tie) == SnapshotRead(s, k, q, tie)
    {
      TxnReadIsSnapshotRead(s, k, t, tie);
    }
  }

  lemma AnswersOwn(s: State, k: Key, t: TxnId)
    requires Inv(s) && QuietKey(s, t, k) && OwnWrite(s, k, t).Some?
    ensures Answers(s, k, t, OwnWrite(s, k, t))
  {
    hide Inv, TxnRead, SnapshotRead, OwnWrite;
    forall tie
      ensures TxnRead(s, k, t, tie) == OwnWrite(s, k, t)
    {
      TxnReadIsSnapshotRead(s, k, t, tie);
    }
  }

  // Read committed: after any run from its Begin, a transaction reads its own latest write, else
  // what is committed last at the time of the read. It is so exactly where chain and tree answer
  // the current sequence right.
  lemma ReadCommittedReadsNewest(s: State, steps: seq<Step>, s': State, k: Key)
    requires Inv(s) && Run(Apply(s, Begin(ReadCommitted)), steps, s') && s.nextTxn in s'.txns
    ensures OwnWrite(s', k, s.nextTxn).Some? ==> Answers(s', k, s.nextTxn, OwnWrite(s', k, s.nextTxn))
    ensures OwnWrite(s', k, s.nextTxn) == None ==>
              (Answers(s', k, s.nextTxn, NewestCommitted(s', k)) <==> Sound(s', k, Current(s')))
  {
    hide Inv, Apply, Answers, NewestCommitted, Sound, OwnWrite;
    BeginGives(s, ReadCommitted, steps, s');
    NewestIsCurrent(s', k);
    if OwnWrite(s', k, s.nextTxn) == None {
      AnswersWithout(s', k, s.nextTxn);
    } else {
      AnswersOwn(s', k, s.nextTxn);
    }
  }

  lemma QuietFromBegin(s: State, k: Key)
    requires Inv(s) && Inv(Apply(s, Begin(RepeatableRead))) && KeySettled(s, k, Current(s))
    ensures QuietKey(Apply(s, Begin(RepeatableRead)), s.nextTxn, k)
    ensures KeySettled(Apply(s, Begin(RepeatableRead)), k, Current(s))
    ensures HistOf(Apply(s, Begin(RepeatableRead)), k) == HistOf(s, k)
  {
    hide CellInv, ChainInv, OwnerInv, ViewsAgree, ViewInv, FlightInv, Locks.Inv, Owns;
    assert KeyInv(s, k);
    var s1 := Apply(s, Begin(RepeatableRead));
    forall u | u in s1.prepared
      ensures Owns(s1, k, u) <==> Owns(s, k, u)
    {
      OwnsIsOwnWrite(s, k, u);
      OwnsIsOwnWrite(s1, k, u);
    }
  }

  // Repeatable read: after any run from its Begin, a transaction reads its own latest write, else
  // what was committed last when it began. It is so for every key that no commit in flight at
  // Begin has written, where the tree reads the answering commit back right.
  lemma RepeatableReadReadsBegin(s: State, steps: seq<Step>, s': State, k: Key)
    requires Inv(s) && Run(Apply(s, Begin(RepeatableRead)), steps, s') && s.nextTxn in s'.txns
    requires KeySettled(s, k, Current(s)) && 1 <= Current(s) && FaithfulAt(HistOf(s, k).versions, Current(s))
    ensures Answers(s', k, s.nextTxn, if OwnWrite(s', k, s.nextTxn).Some? then OwnWrite(s', k, s.nextTxn) else NewestCommitted(s, k))
  {
    hide Inv, Apply, Answers, NewestCommitted, OwnWrite, KeySettled, GrowsAbove, QuietKey;
    var s1, q := Apply(s, Begin(RepeatableRead)), Current(s);
    BeginGives(s, RepeatableRead, steps, s');
    NewestIsCurrent(s, k);
    QuietFromBegin(s, k);
    RunKeepsSettled(s1, steps, s', k, q);
    QuietStays(s1, s', s.nextTxn, k);
    GrownReadsSame(HistOf(s, k).versions, HistOf(s', k).versions, q);
    if OwnWrite(s', k, s.nextTxn) == None {
      AnswersWithout(s', k, s.nextTxn);
    } else {
      AnswersOwn(s', k, s.nextTxn);
    }
  }

  // From the opening of the engine on, with every key written once by a transaction, the two
  // levels differ in nothing but the moment whose newest version they read.
  lemma LevelsDecideTheMoment(s0: State, before: seq<Step>, s: State, policy: Policy, steps: seq<Step>, s': State, k: Key)
    requires Init(s0) && RunOnce(s0, before, s) && RunOnce(Apply(s, Begin(policy)), steps, s') && s.nextTxn in s'.txns
    requires 1 <= Current(s) && (policy == RepeatableRead ==> KeySettled(s, k, Current(s)))
    ensures Answers(s', k, s.nextTxn,
                    if OwnWrite(s', k, s.nextTxn).Some? then OwnWrite(s', k, s.nextTxn)
                    else if policy == ReadCommitted then NewestCommitted(s', k)
                    else NewestCommitted(s, k))
  {
    hide Inv, Init, Answers, NewestCommitted, OwnWrite, KeySettled, StrictKey, FaithfulAt;
    OnceRunIsStrict(s0, before, s, k);
    OnceIsRun(Apply(s, Begin(policy)), steps, s');
    StrictIsFaithful(HistOf(s, k).versions, Current(s));
    if policy == ReadCommitted {
      CurrentStays(s, Begin(policy), steps, s');
      BeginKeepsStrict(s, policy, k);
      StepKeepsInv(s, Begin(policy));
      RunKeepsStrict(Apply(s, Begin(policy)), steps, s', k);
      StrictKeyIsFaithful(s', k, Current(s'));
      ReadCommittedReadsNewest(s, steps, s', k);
    } else {
      RepeatableReadReadsBegin(s, steps, s', k);
    }
  }

  lemma BeginKeepsStrict(s: State, policy: Policy, k: Key)
    requires StrictKey(s, k)
    ensures StrictKey(Apply(s, Begin(policy)), k)
  {
  }

  lemma StrictKeyIsFaithful(s: State, k: Key, q: SeqNo)
    requires StrictKey(s, k)
    ensures FaithfulAt(HistOf(s, k).versions, q)
  {
    StrictIsFaithful(HistOf(s, k).versions, q);
  }

  lemma {:induction false} OnceIsRun(s: State, steps: seq<Step>, s': State)
    requires RunOnce(s, steps, s')
    ensures Run(s, steps, s')
    decreases |steps|
  {
    if steps != [] {
      OnceIsRun(Apply(s, steps[0]), steps[1..], s');
    }
  }

  lemma CurrentStays(s: State, step: Step, steps: seq<Step>, s': State)
    requires Enabled(s, step) && Run(Apply(s, step), steps, s')
    ensures Current(s) <= Current(s')
  {
    NumbersGrow(Apply(s, step), steps, s');
  }

  lemma {:induction false} NumbersGrow(s: State, steps: seq<Step>, s': State)
    requires Run(s, steps, s')
    ensures s.nextSeq <= s'.nextSeq
    decreases |steps|
  {
    if steps != [] {
      NumbersGrow(Apply(s, steps[0]), steps[1..], s');
    }
  }

  // ---- the background work ----

  // Flush steps and garbage collection change no answer of a snapshot ...
  lemma BackgroundIsInvisible(s: State, step: Step, k: Key, q: SeqNo, tie: Tie, tie': Tie)
    requires Inv(s) && Enabled(s, step) && Background(step)
    requires 1 <= q && FaithfulAt(HistOf(s, k).versions, q)
    ensures SnapshotRead(Apply(s, step), k, q, tie') == SnapshotRead(s, k, q, tie)
  {
    hide Inv, SnapshotRead, Apply, FaithfulAt;
    StepKeepsInv(s, step);
    InvKey(s, k);
    BackgroundKeepsTail(s, step, k);
    AnswersAreTheHistory(s, k, q, tie);
    AnswersAreTheHistory(Apply(s, step), k, q, tie');
  }

  lemma BackgroundKeepsHandles(s: State, step: Step, k: Key, t: TxnId)
    requires Enabled(s, step) && Background(step) && QuietKey(s, t, k)
    requires HistOf(Apply(s, step), k).versions == HistOf(s, k).versions
    ensures t in Apply(s, step).txns && Apply(s, step).txns[t] == s.txns[t] && QuietKey(Apply(s, step), t, k)
    ensures LsmReadSeq(Apply(s, step), s.txns[t]) == LsmReadSeq(s, s.txns[t])
  {
  }

  // ... and none of a transaction.
  lemma BackgroundIsInvisibleToTxn(s: State, step: Step, k: Key, t: TxnId, tie: Tie, tie': Tie)
    requires Inv(s) && Enabled(s, step) && Background(step) && QuietKey(s, t, k)
    requires 1 <= LsmReadSeq(s, s.txns[t]) && FaithfulAt(HistOf(s, k).versions, LsmReadSeq(s, s.txns[t]))
    ensures t in Apply(s, step).txns
    ensures TxnRead(Apply(s, step), k, t, tie') == TxnRead(s, k, t, tie)
  {
    hide Inv, SnapshotRead, TxnRead, Apply, FaithfulAt, OwnWrite, LsmReadSeq, KeyInv, ViewsAgree;
    var s' := Apply(s, step);
    StepKeepsInv(s, step);
    InvKey(s, k);
    InvKey(s', k);
    BackgroundKeepsTail(s, step, k);
    BackgroundKeepsHandles(s, step, k, t);
    BackgroundKeepsOwnWrites(s, step, k, t);
    BackgroundIsInvisible(s, step, k, LsmReadSeq(s, s.txns[t]), tie, tie');
    TxnReadIsSnapshotRead(s, k, t, tie);
    TxnReadIsSnapshotRead(s', k, t, tie');
  }
}
