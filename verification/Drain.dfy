/** Draining the version chains into the LSM tree, and what the tree answers from then on. */
module Drain {
  import opened Types
  import opened VersionChain
  import opened Lsm
  import opened History
  import opened Engine
  import opened ChainLemmas
  import opened EngineTheorems
  import opened Stability
  import opened Transactions

  // Every committed version still waiting to be flushed, by its place.
  ghost function Backlog(cs: Chains): set<(Key, nat)> {
    BacklogOf(cs, cs.Keys)
  }

  ghost function BacklogOf(cs: Chains, ks: set<Key>): set<(Key, nat)> {
    set k, i: nat | k in ks && i < |ChainOf(cs, k)| && NeedsFlush(ChainOf(cs, k)[i]) :: (k, i)
  }

  ghost function Pending(chain: Chain): set<nat> {
    set i: nat | i < |chain| && NeedsFlush(chain[i])
  }

  ghost function Tagged(k: Key, places: set<nat>): set<(Key, nat)> {
    set i | i in places :: (k, i)
  }

  // ---- one round ----

  lemma {:induction false} UnflushedCount(chain: Chain)
    ensures |Unflushed(chain)| == |Pending(chain)|
    ensures forall r :: r in Unflushed(chain) <==> r in chain && NeedsFlush(r)
  {
    if chain != [] {
      var init, r := chain[..|chain| - 1], chain[|chain| - 1];
      UnflushedCount(init);
      assert chain == init + [r];
      assert Pending(chain) == Pending(init) + if NeedsFlush(r) then {|init|} else {};
    }
  }

  lemma {:induction false} TaggedCount(k: Key, places: set<nat>)
    ensures |Tagged(k, places)| == |places|
  {
    if places != {} {
      var i :| i in places;
      TaggedCount(k, places - {i});
      assert Tagged(k, places) == Tagged(k, places - {i}) + {(k, i)};
    }
  }

  lemma BacklogOfOneMore(cs: Chains, ks: set<Key>, k: Key)
    requires k !in ks
    ensures |BacklogOf(cs, ks + {k})| == |BacklogOf(cs, ks)| + |Unflushed(ChainOf(cs, k))|
  {
    UnflushedCount(ChainOf(cs, k));
    TaggedCount(k, Pending(ChainOf(cs, k)));
    BacklogSplits(cs, ks, k);
  }

  lemma BacklogSplits(cs: Chains, ks: set<Key>, k: Key)
    requires k !in ks
    ensures BacklogOf(cs, ks + {k}) == BacklogOf(cs, ks) + Tagged(k, Pending(ChainOf(cs, k)))
    ensures BacklogOf(cs, ks) !! Tagged(k, Pending(ChainOf(cs, k)))
  {
  }

  lemma NoKeysNoBacklog(cs: Chains)
    ensures BacklogOf(cs, {}) == {}
  {
  }

  lemma {:induction false} PickCount(cs: Chains, ks: seq<Key>)
    requires NoRepeats(ks)
    ensures |PickFrom(cs, ks)| == |BacklogOf(cs, set k | k in ks)|
  {
    hide Unflushed, BacklogOf, ChainOf, Tag;
    if ks == [] {
      assert (set k | k in ks) == {};
      NoKeysNoBacklog(cs);
    } else {
      var init, k := ks[..|ks| - 1], ks[|ks| - 1];
      assert ks == init + [k];
      PickCount(cs, init);
      BacklogOfOneMore(cs, (set x | x in init), k);
      assert (set x | x in ks) == (set x | x in init) + {k};
    }
  }

  lemma {:induction false} PickHolds(cs: Chains, ks: seq<Key>, k: Key, r: Record)
    ensures (k, r) in PickFrom(cs, ks) <==> k in ks && r in ChainOf(cs, k) && NeedsFlush(r)
  {
    if ks != [] {
      var init, last := ks[..|ks| - 1], ks[|ks| - 1];
      assert ks == init + [last];
      PickHolds(cs, init, k, r);
      UnflushedCount(ChainOf(cs, last));
      TagHolds(last, Unflushed(ChainOf(cs, last)), k, r);
    }
  }

  lemma TagHolds(last: Key, rs: seq<Record>, k: Key, r: Record)
    ensures (k, r) in Tag(last, rs) <==> k == last && r in rs
  {
    if k == last && r in rs {
      var i :| 0 <= i < |rs| && rs[i] == r;
      assert Tag(last, rs)[i] == (k, r);
    }
  }

  ghost function AfterRound(cs: Chains, ks: seq<Key>): Chains {
    FlushMarks(cs, Marks(PickFrom(cs, ks)))
  }

  // A round clears the picked keys and touches no other.
  lemma RoundClears(cs: Chains, ks: seq<Key>, k: Key, i: nat)
    requires i < |ChainOf(cs, k)|
    ensures |ChainOf(AfterRound(cs, ks), k)| == |ChainOf(cs, k)|
    ensures NeedsFlush(ChainOf(AfterRound(cs, ks), k)[i]) <==> NeedsFlush(ChainOf(cs, k)[i]) && k !in ks
  {
    var items, r := PickFrom(cs, ks), ChainOf(cs, k)[i];
    MarksOneByOne(cs, Marks(items), k);
    PickHolds(cs, ks, k, r);
    if k in ks && NeedsFlush(r) {
      var j :| 0 <= j < |items| && items[j] == (k, r);
      assert Marks(items)[j] == (k, r.commit);
    } else if (k, r.commit) in Marks(items) {
      var j :| 0 <= j < |items| && Marks(items)[j] == (k, r.commit);
      PickHolds(cs, ks, items[j].0, items[j].1);
      assert items[j] in items && items[j] == (k, items[j].1);
    }
  }

  // A round takes out exactly what it picked: at least `max` versions, or all there are.
  lemma RoundDrains(cs: Chains, ks: seq<Key>, max: nat)
    requires PicksEnough(cs, ks, max)
    ensures |Backlog(AfterRound(cs, ks))| == |Backlog(cs)| - |PickFrom(cs, ks)|
    ensures |PickFrom(cs, ks)| >= max || Backlog(AfterRound(cs, ks)) == {}
  {
    var cs', picked := AfterRound(cs, ks), set k | k in ks;
    PickCount(cs, ks);
    MarksKeepKeys(cs, Marks(PickFrom(cs, ks)));
    forall k, i: nat
      ensures (k, i) in Backlog(cs') <==> (k, i) in Backlog(cs) && k !in ks
    {
      if i < |ChainOf(cs, k)| {
        RoundClears(cs, ks, k, i);
      } else {
        MarksOneByOne(cs, Marks(PickFrom(cs, ks)), k);
      }
    }
    assert Backlog(cs) == Backlog(cs') + BacklogOf(cs, picked);
    assert Backlog(cs') !! BacklogOf(cs, picked);
  }

  lemma {:induction false} MarksKeepKeys(cs: Chains, marks: seq<(Key, SeqNo)>)
    ensures FlushMarks(cs, marks).Keys == cs.Keys
  {
    if marks != [] {
      MarksKeepKeys(cs, marks[..|marks| - 1]);
    }
  }

  // A pick of at least one finds nothing exactly if nothing is waiting.
  lemma EmptyPickMeansDrained(cs: Chains, ks: seq<Key>, max: nat)
    requires PicksEnough(cs, ks, max) && 1 <= max
    ensures PickFrom(cs, ks) == [] <==> Backlog(cs) == {}
  {
    PickCount(cs, ks);
    var picked := set k | k in ks;
    assert BacklogOf(cs, picked) <= Backlog(cs);
    if PickFrom(cs, ks) == [] {
      assert picked == cs.Keys;
    }
  }

  // ---- all rounds ----

  const MAX_ROUNDS := 10000

  // One column family's part of SyncAllData. With U versions waiting, a batch size m of at
  // least one and no failing write, the chains are drained after ceil(U / m) rounds, and
  // the loop stops there unless that is more than MAX_ROUNDS.
  method SyncChains(mgr: TxManager, max: nat, lsmOk: (nat, nat) -> bool) returns (ok: bool, ghost rounds: nat)
    requires mgr.Valid()
    modifies mgr, mgr.vcm
    ensures mgr.Valid() && Leads(old(mgr.View()), mgr.View())
    ensures !ok ==> exists r: nat, i: nat :: r < 10000 && !lsmOk(r, i)
    ensures ok ==> 1 <= rounds <= 10000
    ensures ok ==> Backlog(mgr.vcm.chains) == {} || |Backlog(mgr.vcm.chains)| <= |old(Backlog(mgr.vcm.chains))| - rounds * max
    ensures ok ==> Backlog(mgr.vcm.chains) == {} || rounds == 10000
    ensures ok && 1 < rounds ==> (rounds - 1) * max < |old(Backlog(mgr.vcm.chains))|
  {
    hide Backlog, Leads;
    rounds := 0;
    RunNowhere(mgr.View());
    for round := 0 to MAX_ROUNDS
      invariant mgr.Valid() && rounds == round
      invariant Leads(old(mgr.View()), mgr.View())
      invariant |Backlog(mgr.vcm.chains)| <= |old(Backlog(mgr.vcm.chains))| - rounds * max
      invariant 0 < rounds ==> Backlog(mgr.vcm.chains) != {}
    {
      ghost var before := mgr.View();
      var r: nat := round;
      ok := SyncRound(mgr, max, (i: nat) => lsmOk(r, i));
      RunJoins(old(mgr.View()), before, mgr.View());
      if !ok {
        assert exists i: nat :: !lsmOk(r, i);
        return;
      }
      rounds := rounds + 1;
      var waiting := AnyWaiting(mgr.vcm);
      if !waiting {
        return;
      }
    }
    ok := true;
  }

  method SyncRound(mgr: TxManager, max: nat, lsmOk: nat -> bool) returns (ok: bool)
    requires mgr.Valid()
    modifies mgr, mgr.vcm
    ensures mgr.Valid() && Leads(old(mgr.View()), mgr.View())
    ensures !ok ==> exists i: nat :: !lsmOk(i)
    ensures ok ==> Backlog(mgr.vcm.chains) == {} || |Backlog(mgr.vcm.chains)| <= |old(Backlog(mgr.vcm.chains))| - max
  {
    hide Backlog, Leads;
    ghost var before := mgr.View();
    ghost var ks, n;
    ok, ks, n := mgr.FlushCommittedToLSM(max, lsmOk);
    if ok {
      WholeFlushIsARun(before, ks);
      RoundDrains(before.chains, ks, max);
      assert mgr.vcm.chains == AfterRound(before.chains, ks);
    } else {
      FailedFlushIsARun(before, ks, n);
    }
  }

  method AnyWaiting(vcm: VersionChainManager) returns (waiting: bool)
    ensures waiting <==> Backlog(vcm.chains) != {}
  {
    var left, seen := vcm.PickCommittedNotFlushed(1);
    EmptyPickMeansDrained(vcm.chains, seen, 1);
    waiting := left != [];
  }

  // ---- what a drained engine can rely on ----

  lemma DrainedIsFlushed(s: State, k: Key)
    requires KeyInv(s, k) && Backlog(s.chains) == {}
    ensures HistOf(s, k).flushed == |HistOf(s, k).versions|
  {
    var h, chain := HistOf(s, k), ChainOf(s.chains, k);
    LiveIsSubset(chain);
    if h.flushed < |h.versions| {
      WaitingIsBacklog(s.chains, k, Live(chain)[h.flushed - h.dropped]);
    }
  }

  lemma WaitingIsBacklog(cs: Chains, k: Key, r: Record)
    requires r in ChainOf(cs, k) && NeedsFlush(r)
    ensures Backlog(cs) != {}
  {
    var i: nat :| i < |ChainOf(cs, k)| && ChainOf(cs, k)[i] == r;
    assert (k, i) in Backlog(cs);
  }

  // The tree alone answers like the history, wherever its records have got to.
  ghost predicate TreeReadsHistory(s: State, k: Key, q: SeqNo) {
    forall tie :: Read(s.lsm, k, q, tie) == HistRead(HistOf(s, k).versions, q)
  }

  // From drained chains on the tree alone answers like the history exactly where the answering
  // commit is one it reads back right, and there chain and tree answer the same.
  lemma LsmAloneAnswers(s: State, k: Key, q: SeqNo)
    requires Inv(s) && Backlog(s.chains) == {} && 1 <= q
    ensures TreeReadsHistory(s, k, q) <==> FaithfulAt(HistOf(s, k).versions, q)
    ensures TreeReadsHistory(s, k, q) ==> ReadsHistory(s, k, q)
  {
    hide Inv, Sound;
    InvKey(s, k);
    DrainedIsFlushed(s, k);
    FlushedReads(s, k, q);
    if TreeReadsHistory(s, k, q) {
      AnswersLikeTree(s, k, q);
    }
  }

  lemma AnswersLikeTree(s: State, k: Key, q: SeqNo)
    requires Inv(s) && 1 <= q && FaithfulAt(HistOf(s, k).versions, q)
    ensures ReadsHistory(s, k, q)
  {
    hide Inv;
    SnapshotReadExact(s, k, q);
  }

  lemma FlushedReads(s: State, k: Key, q: SeqNo)
    requires KeyInv(s, k) && 1 <= q && NewestIndex(HistOf(s, k).versions, q) < HistOf(s, k).flushed
    ensures TreeReadsHistory(s, k, q) <==> FaithfulAt(HistOf(s, k).versions, q)
  {
    hide KeyInv, FlushResult, Read;
    var vs := HistOf(s, k).versions;
    var i := NewestIndex(vs, q);
    if i >= 0 {
      FlushedAnswers(s, k, q);
    } else {
      forall tie
        ensures Read(s.lsm, k, q, tie) == None
      {
        LsmRead(s, k, q, tie);
      }
    }
  }

  lemma FlushedAnswers(s: State, k: Key, q: SeqNo)
    requires KeyInv(s, k) && 1 <= q && 0 <= NewestIndex(HistOf(s, k).versions, q) < HistOf(s, k).flushed
    ensures var vs := HistOf(s, k).versions;
            var g := Group(vs, vs[NewestIndex(vs, q)].commit);
            && g != [] && HistRead(vs, q) == Some(g[|g| - 1])
            && forall tie :: Read(s.lsm, k, q, tie) == Some(Answered(g, tie))
  {
    hide FlushResult, Read, Answered, Group;
    NewestEndsGroup(HistOf(s, k).versions, q);
    forall tie
      ensures var vs := HistOf(s, k).versions;
              Read(s.lsm, k, q, tie) == Some(Answered(Group(vs, vs[NewestIndex(vs, q)].commit), tie))
    {
      LsmRead(s, k, q, tie);
    }
  }

  // From a drained state with no commit in flight on, whatever runs, the tree alone keeps
  // answering every sequence handed out so far as it does now.
  lemma DrainedStaysAnswered(s: State, steps: seq<Step>, s': State, k: Key, q: SeqNo, tie: Tie)
    requires Inv(s) && Backlog(s.chains) == {} && s.prepared == map[]
    requires Run(s, steps, s') && 1 <= q <= Current(s)
    ensures Read(s'.lsm, k, q, tie) == Read(s.lsm, k, q, tie)
  {
    hide Inv, GrowsAbove, Read;
    InvKey(s, k);
    DrainedIsFlushed(s, k);
    RunKeepsSettled(s, steps, s', k, q);
    InvKey(s', k);
    LaterReadsSame(s, s', k, q, tie);
  }

  lemma LaterReadsSame(s: State, s': State, k: Key, q: SeqNo, tie: Tie)
    requires KeyInv(s, k) && KeyInv(s', k) && 1 <= q
    requires HistOf(s, k).flushed == |HistOf(s, k).versions| <= HistOf(s', k).flushed
    requires GrowsAbove(HistOf(s, k).versions, HistOf(s', k).versions, q)
    ensures Read(s'.lsm, k, q, tie) == Read(s.lsm, k, q, tie)
  {
    hide KeyInv, GrowsAbove, Read, Group, Answered;
    GrownReadsSame(HistOf(s, k).versions, HistOf(s', k).versions, q);
    LsmRead(s, k, q, tie);
    LsmRead(s', k, q, tie);
  }
}
