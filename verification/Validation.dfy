/** Read-set validation at commit: what it lets through of a repeatable-read transaction's reads. */
module ReadValidation {
  import opened Types
  import opened VersionChain
  import opened Engine
  import opened ChainLemmas
  import opened FlushLemmas
  import opened EngineInvariant
  import opened EngineTheorems
  import opened Stability
  import opened Transactions
  import Lsm

  lemma {:induction false} NoneVisible(chain: Chain, v: ReadView)
    ensures Visible(chain, v) == None <==> forall r | r in chain :: !Sees(v, r)
  {
    if chain != [] {
      var init, last := chain[..|chain| - 1], chain[|chain| - 1];
      NoneVisible(init, v);
      assert chain == init + [last];
    }
  }

  lemma {:induction false} NeededAreThere(chain: Chain, n: nat)
    requires n <= |chain|
    ensures forall r | r in NeededUpTo(chain, n) :: r in chain
  {
    if n > 0 {
      NeededAreThere(chain, n - 1);
    }
  }

  // ---- one step ----

  // A repeatable-read view sees nothing of a transaction that is open.
  lemma OpenIsUnseen(s: State, t: TxnId, u: TxnId, r: Record)
    requires Inv(s) && t in s.txns && s.txns[t].view.policy == RepeatableRead
    requires u in s.txns && u != t && r.txn == u
    ensures !Sees(s.txns[t].view, r)
  {
    hide KeyInv, ViewsAgree, FlightInv, Locks.Inv;
    assert ViewInv(s, t);
  }

  // What the view sees after a step of others comes from what it saw before.
  lemma SeenWasSeen(s: State, step: Step, k: Key, t: TxnId, r: Record)
    requires Inv(s) && Enabled(s, step) && t in s.txns && t in Apply(s, step).txns && t < s.nextTxn
    requires s.txns[t].view.policy == RepeatableRead && (step.DoWrite? ==> step.txn != t || step.key != k)
    requires r in ChainOf(Apply(s, step).chains, k) && Sees(s.txns[t].view, r)
    ensures exists x :: x in ChainOf(s.chains, k) && Sees(s.txns[t].view, x)
  {
    hide Inv, Locks.Holds, Locks.Apply, Locks.ReleaseAll, FlushMarks, CommitAll, AbortAll, CollectAll, NeededUpTo;
    var chain, view := ChainOf(s.chains, k), s.txns[t].view;
    match step
    case DoWrite(u, key, p) =>
      if key == k && r !in chain {
        OpenIsUnseen(s, t, u, r);
      }
    case Publish(u) =>
      ChainOfCommitAll(s.chains, u, s.prepared[u], k);
      var i :| 0 <= i < |chain| && r == CommitRecord(chain[i], u, s.prepared[u]);
      if r != chain[i] {
        OpenIsUnseen(s, t, u, r);
      }
      assert chain[i] in chain;
    case Abandon(u) =>
      ChainOfCommitAll(s.chains, u, 0, k);
      var i :| 0 <= i < |chain| && r == AbortRecord(chain[i], u);
      assert chain[i] in chain;
    case FlushDone =>
      MarksOneByOne(s.chains, Marks(s.flight.items), k);
      var i :| 0 <= i < |chain| && Sees(view, chain[i]) == Sees(view, r);
      assert chain[i] in chain;
    case Gc =>
      CollectionLeavesTheNeeded(s.chains, k);
      NeededAreThere(chain, |chain|);
    case _ =>
  }

  // ---- across runs ----

  lemma StillUnseen(s: State, step: Step, k: Key, t: TxnId)
    requires Inv(s) && Enabled(s, step) && t in s.txns && t in Apply(s, step).txns && t < s.nextTxn
    requires s.txns[t].view.policy == RepeatableRead && (step.DoWrite? ==> step.txn != t || step.key != k)
    requires Visible(ChainOf(s.chains, k), s.txns[t].view) == None
    ensures Visible(ChainOf(Apply(s, step).chains, k), s.txns[t].view) == None
  {
    hide Inv, Apply, Sees, Visible;
    var view := s.txns[t].view;
    NoneVisible(ChainOf(s.chains, k), view);
    NoneVisible(ChainOf(Apply(s, step).chains, k), view);
    forall r | r in ChainOf(Apply(s, step).chains, k)
      ensures !Sees(view, r)
    {
      if Sees(view, r) {
        SeenWasSeen(s, step, k, t, r);
      }
    }
  }

  lemma {:induction false} StaysUnseen(s: State, steps: seq<Step>, s': State, k: Key, t: TxnId)
    requires Inv(s) && Run(s, steps, s') && NoWriteOf(steps, t, k) && t in s.txns && t in s'.txns && t < s.nextTxn
    requires s.txns[t].view.policy == RepeatableRead && Visible(ChainOf(s.chains, k), s.txns[t].view) == None
    ensures s'.txns[t] == s.txns[t] && Visible(ChainOf(s'.chains, k), s.txns[t].view) == None
    decreases |steps|
  {
    hide Inv, Visible;
    if steps != [] {
      var s1 := Apply(s, steps[0]);
      StepKeepsInv(s, steps[0]);
      HandleStep(s, steps[0], t);
      HandleStays(s1, steps[1..], s', t);
      StillUnseen(s, steps[0], k, t);
      StaysUnseen(s1, steps[1..], s', k, t);
    }
  }

  // Validation asks only the chains. A repeatable-read transaction that has read a value from the
  // LSM tree will not find it in a chain again, whatever happens meanwhile: its reads never
  // validate, though nothing it read has changed.
  lemma TreeReadNeverValidates(s: State, steps: seq<Step>, s': State, t: TxnId, k: Key, v: Value, tie: Lsm.Tie, noted: ReadSet)
    requires Inv(s) && Run(s, steps, s') && NoWriteOf(steps, t, k) && t in s.txns && t in s'.txns
    requires s.txns[t].view.policy == RepeatableRead
    requires Visible(ChainOf(s.chains, k), s.txns[t].view) == None && TxnRead(s, k, t, tie) == Some(Put(v))
    ensures NoteRead(map[], k, None, TxnRead(s, k, t, tie)) == map[k := Some(v)]
    ensures k in noted && noted[k].Some? ==> !Validates(s'.chains, s'.txns[t].view, noted)
  {
    hide Visible, KeyInv, ViewsAgree, FlightInv, Locks.Inv;
    assert ViewInv(s, t);
    StaysUnseen(s, steps, s', k, t);
  }

  // And one that has overwritten what it read with another value is compared with its own write.
  lemma OverwrittenReadNeverValidates(s: State, t: TxnId, k: Key, noted: ReadSet)
    requires Inv(s) && t in s.txns && OwnWrite(s, k, t).Some? && k in noted
    requires noted[k] != ValueOf(OwnWrite(s, k, t))
    ensures !Validates(s.chains, s.txns[t].view, noted)
  {
    hide Inv, Visible, LatestActive, Owns;
    OwnsIsOwnWrite(s, k, t);
    OwnerReadsOwn(s, k, t);
  }
}
