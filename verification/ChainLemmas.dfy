/** How the chain operations act on the records that are not aborted. */
module ChainLemmas {
  import opened Types
  import opened VersionChain
  import opened History
  import opened Engine

  // ---- aborted records never matter ----

  lemma {:induction false} LiveHasNoAborted(chain: Chain)
    ensures forall i | 0 <= i < |Live(chain)| :: Live(chain)[i].state != Aborted
  {
    if chain != [] {
      LiveHasNoAborted(chain[..|chain| - 1]);
    }
  }

  lemma {:induction false} LiveIdentity(chain: Chain)
    requires forall i | 0 <= i < |chain| :: chain[i].state != Aborted
    ensures Live(chain) == chain
  {
    if chain != [] {
      LiveIdentity(chain[..|chain| - 1]);
    }
  }

  lemma LiveOfAppend(chain: Chain, r: Record)
    requires r.state != Aborted
    ensures Live(chain + [r]) == Live(chain) + [r]
  {
    assert (chain + [r])[..|chain|] == chain;
  }

  lemma {:induction false} LiveOfCommit(chain: Chain, t: TxnId, c: SeqNo)
    ensures Live(CommitChain(chain, t, c)) == CommitChain(Live(chain), t, c)
  {
    if chain != [] {
      var init := chain[..|chain| - 1];
      LiveOfCommit(init, t, c);
      assert CommitChain(chain, t, c)[..|chain| - 1] == CommitChain(init, t, c);
      assert Live(CommitChain(chain, t, c)) == CommitChain(Live(chain), t, c);
    }
  }

  lemma {:induction false} LiveOfAbort(chain: Chain, t: TxnId)
    ensures Live(AbortChain(chain, t)) == Live(AbortChain(Live(chain), t))
  {
    if chain != [] {
      var init, r := chain[..|chain| - 1], chain[|chain| - 1];
      LiveOfAbort(init, t);
      assert AbortChain(chain, t)[..|chain| - 1] == AbortChain(init, t);
      if r.state == Aborted {
        assert Live(chain) == Live(init);
      } else {
        assert Live(chain) == Live(init) + [r];
        assert AbortChain(Live(chain), t)[..|Live(init)|] == AbortChain(Live(init), t);
      }
    }
  }

  // Marking flushed every committed record whose (key, commit) is among the marks.
  function MarkBy(chain: Chain, k: Key, marks: set<(Key, SeqNo)>): Chain {
    seq(|chain|, i requires 0 <= i < |chain| =>
      if chain[i].state == Committed && (k, chain[i].commit) in marks
      then chain[i].(flushed := true) else chain[i])
  }

  lemma {:induction false} LiveOfMark(chain: Chain, k: Key, marks: set<(Key, SeqNo)>)
    ensures Live(MarkBy(chain, k, marks)) == MarkBy(Live(chain), k, marks)
  {
    if chain != [] {
      var init := chain[..|chain| - 1];
      LiveOfMark(init, k, marks);
      assert MarkBy(chain, k, marks)[..|chain| - 1] == MarkBy(init, k, marks);
      assert Live(MarkBy(chain, k, marks)) == MarkBy(Live(chain), k, marks);
    }
  }

  lemma {:induction false} MarksOneByOne(cs: Chains, marks: seq<(Key, SeqNo)>, k: Key)
    ensures ChainOf(FlushMarks(cs, marks), k) == MarkBy(ChainOf(cs, k), k, set m | m in marks)
  {
    if marks != [] {
      var init, m := marks[..|marks| - 1], marks[|marks| - 1];
      MarksOneByOne(cs, init, k);
      assert forall x :: x in marks <==> x in init || x == m;
    }
  }

  lemma {:induction false} VisibleInLive(chain: Chain, v: ReadView)
    ensures Visible(chain, v) == Visible(Live(chain), v)
  {
    if chain != [] {
      var init, r := chain[..|chain| - 1], chain[|chain| - 1];
      VisibleInLive(init, v);
      if r.state == Aborted {
        assert Live(chain) == Live(init);
      } else {
        assert Live(chain)[..|Live(chain)| - 1] == Live(init);
      }
    }
  }

  lemma {:induction false} VisibleAtInLive(chain: Chain, s: SeqNo)
    ensures VisibleAt(chain, s) == VisibleAt(Live(chain), s)
  {
    if chain != [] {
      var init, r := chain[..|chain| - 1], chain[|chain| - 1];
      VisibleAtInLive(init, s);
      if r.state == Aborted {
        assert Live(chain) == Live(init);
      } else {
        assert Live(chain)[..|Live(chain)| - 1] == Live(init);
      }
    }
  }

  lemma {:induction false} UnflushedInLive(chain: Chain)
    ensures Unflushed(chain) == Unflushed(Live(chain))
  {
    if chain != [] {
      var init, r := chain[..|chain| - 1], chain[|chain| - 1];
      UnflushedInLive(init);
      if r.state == Aborted {
        assert Live(chain) == Live(init);
      } else {
        assert Live(chain)[..|Live(chain)| - 1] == Live(init);
      }
    }
  }

  lemma {:induction false} NewVersionsInLive(chain: Chain, t: TxnId, c: SeqNo)
    ensures NewVersions(chain, t, c) == NewVersions(Live(chain), t, c)
  {
    if chain != [] {
      var init, r := chain[..|chain| - 1], chain[|chain| - 1];
      NewVersionsInLive(init, t, c);
      if r.state == Aborted {
        assert Live(chain) == Live(init);
      } else {
        assert Live(chain)[..|Live(chain)| - 1] == Live(init);
      }
    }
  }

  // ---- the active tail ----

  // A scan from the newest record passes over a tail it does not take.
  lemma {:induction false} VisibleAtSkips(chain: Chain, n: nat, s: SeqNo)
    requires n <= |chain|
    requires forall i | n <= i < |chain| :: chain[i].state != Committed || chain[i].commit > s
    ensures VisibleAt(chain, s) == VisibleAt(chain[..n], s)
  {
    if n < |chain| {
      VisibleAtSkips(chain[..|chain| - 1], n, s);
      assert chain[..|chain| - 1][..n] == chain[..n];
    } else {
      assert chain[..n] == chain;
    }
  }

  // A view that sees exactly the versions up to s reads like a snapshot at s.
  lemma {:induction false} ViewReadsLikeSnapshot(chain: Chain, v: ReadView, s: SeqNo)
    requires forall i | 0 <= i < |chain| ::
      Sees(v, chain[i]) <==> chain[i].state == Committed && chain[i].commit <= s
    ensures Visible(chain, v) == VisibleAt(chain, s)
  {
    if chain != [] {
      ViewReadsLikeSnapshot(chain[..|chain| - 1], v, s);
    }
  }

  // The versions a commit adds, when the active tail is all its own.
  lemma {:induction false} NewVersionsOfTail(chain: Chain, n: nat, t: TxnId, c: SeqNo)
    requires n <= |chain|
    requires forall i | 0 <= i < n :: chain[i].state != Active
    requires forall i | n <= i < |chain| :: chain[i].state == Active && chain[i].txn == t
    ensures |NewVersions(chain, t, c)| == |chain| - n
    ensures forall j | 0 <= j < |chain| - n :: NewVersions(chain, t, c)[j] == Version(chain[n + j].payload, c, t)
    decreases |chain|
  {
    if |chain| > n {
      NewVersionsOfTail(chain[..|chain| - 1], n, t, c);
    } else if chain != [] {
      NewVersionsOfTail(chain[..|chain| - 1], n - 1, t, c);
    }
  }

  lemma {:induction false} NoNewVersions(chain: Chain, t: TxnId, c: SeqNo)
    requires forall i | 0 <= i < |chain| :: chain[i].state != Active || chain[i].txn != t
    ensures NewVersions(chain, t, c) == []
  {
    if chain != [] {
      NoNewVersions(chain[..|chain| - 1], t, c);
    }
  }

  // ---- garbage collection ----

  lemma {:induction false} KeptSparesActive(chain: Chain, n: nat, latestMet: bool)
    requires n <= |chain| && forall i | n <= i < |chain| :: chain[i].state == Active
    ensures Kept(chain, latestMet) == Kept(chain[..n], latestMet) + chain[n..]
  {
    if n < |chain| {
      var init := chain[..|chain| - 1];
      KeptSparesActive(init, n, latestMet);
      assert init[..n] == chain[..n];
      assert chain[n..] == init[n..] + [chain[|chain| - 1]];
    } else {
      assert chain[..n] == chain;
    }
  }

  // Committed records of which exactly the first m are flushed.
  predicate FlushedUpTo(chain: Chain, m: nat) {
    forall i | 0 <= i < |chain| :: chain[i].state == Committed && (chain[i].flushed <==> i < m)
  }

  // After the newest version only the unflushed ones survive.
  lemma {:induction false} KeptAfterLatest(chain: Chain, hi: nat, m: nat)
    requires FlushedUpTo(chain, m) && hi <= |chain|
    ensures Kept(chain[..hi], true) == if m < hi then chain[m..hi] else []
  {
    assert hi > 0 ==> chain[hi - 1].state == Committed && (chain[hi - 1].flushed <==> hi - 1 < m);
    hide FlushedUpTo;
    if hi > 0 {
      KeptAfterLatest(chain, hi - 1, m);
      assert chain[..hi][..hi - 1] == chain[..hi - 1];
      if m < hi {
        assert chain[m..hi] == chain[m..hi - 1] + [chain[hi - 1]];
      }
    }
  }

  lemma KeptTakesNewest(chain: Chain)
    requires chain != [] && chain[|chain| - 1].state == Committed
    ensures Kept(chain, false) == Kept(chain[..|chain| - 1], true) + [chain[|chain| - 1]]
  {
  }

  lemma SplitLast<T>(whole: seq<T>, a: seq<T>, b: seq<T>, start: nat)
    requires start < |a| && whole == b + [a[|a| - 1]]
    requires b == if start < |a| - 1 then a[start..|a| - 1] else []
    ensures whole == a[start..]
  {
  }

  lemma KeptOfCommitted(chain: Chain, m: nat)
    requires chain != [] && FlushedUpTo(chain, m)
    ensures Kept(chain, false) == chain[if m < |chain| then m else |chain| - 1..]
  {
    var n := |chain| - 1;
    KeptTakesNewest(chain);
    KeptAfterLatest(chain, n, m);
    SplitLast(Kept(chain, false), chain, Kept(chain[..n], true), if m < |chain| then m else n);
  }

  // ---- picking ----

  lemma {:induction false} UnflushedSkipsActive(chain: Chain, n: nat)
    requires n <= |chain| && forall i | n <= i < |chain| :: chain[i].state == Active
    ensures Unflushed(chain) == Unflushed(chain[..n])
  {
    if n < |chain| {
      UnflushedSkipsActive(chain[..|chain| - 1], n);
      assert chain[..|chain| - 1][..n] == chain[..n];
    } else {
      assert chain[..n] == chain;
    }
  }

  lemma {:induction false} UnflushedIsNewestFirst(chain: Chain, h: KeyHistory, hi: nat)
    requires h.dropped <= h.flushed <= |h.versions| && h.dropped <= hi <= |h.versions|
    requires |chain| == hi - h.dropped
    requires forall i | 0 <= i < |chain| ::
      chain[i] == RecordOf(h.versions[h.dropped + i], h.dropped + i < h.flushed)
    ensures Unflushed(chain) == NewestFirst(h.versions, h.flushed, hi)
  {
    if chain != [] {
      UnflushedIsNewestFirst(chain[..|chain| - 1], h, hi - 1);
      if hi <= h.flushed {
        assert NewestFirst(h.versions, h.flushed, hi - 1) == [];
      }
    }
  }

  // ---- what the collector keeps ----

  predicate CommittedFrom(chain: Chain, i: nat) {
    exists j :: i <= j < |chain| && chain[j].state == Committed
  }

  // An active version, one the LSM tree does not have yet, or the newest committed one.
  predicate Needed(chain: Chain, i: nat)
    requires i < |chain|
  {
    || chain[i].state == Active
    || (chain[i].state == Committed && (!chain[i].flushed || !CommittedFrom(chain, i + 1)))
  }

  // The needed ones of the first n, in their order.
  function NeededUpTo(chain: Chain, n: nat): Chain
    requires n <= |chain|
  {
    if n == 0 then [] else NeededUpTo(chain, n - 1) + if Needed(chain, n - 1) then [chain[n - 1]] else []
  }

  // A collection leaves exactly the needed versions of each key.
  lemma CollectionLeavesTheNeeded(cs: Chains, k: Key)
    ensures ChainOf(CollectAll(cs), k) == NeededUpTo(ChainOf(cs, k), |ChainOf(cs, k)|)
  {
    var chain := ChainOf(cs, k);
    KeptIsNeeded(chain, |chain|);
    assert chain[..|chain|] == chain;
  }

  lemma {:induction false} KeptIsNeeded(chain: Chain, n: nat)
    requires n <= |chain|
    ensures Kept(Live(chain[..n]), CommittedFrom(chain, n)) == NeededUpTo(chain, n)
  {
    hide CommittedFrom, Kept;
    if n == 0 {
      KeptOfNone(CommittedFrom(chain, n));
    } else {
      var r := chain[n - 1];
      KeptIsNeeded(chain, n - 1);
      assert chain[..n][..n - 1] == chain[..n - 1];
      if r.state == Aborted {
        assert Live(chain[..n]) == Live(chain[..n - 1]);
      } else {
        assert Live(chain[..n]) == Live(chain[..n - 1]) + [r];
      }
      KeptGrows(Live(chain[..n - 1]), r, CommittedFrom(chain, n));
      CommittedStep(chain, n - 1);
      assert NeededUpTo(chain, n) == NeededUpTo(chain, n - 1) + if Needed(chain, n - 1) then [r] else [];
    }
  }

  lemma KeptOfNone(met: bool)
    ensures Kept([], met) == []
  {
  }

  lemma KeptGrows(live: Chain, r: Record, met: bool)
    ensures Kept(live + [r], met) == match r.state
      case Active => Kept(live, met) + [r]
      case Aborted => Kept(live, met)
      case Committed => if !met || !r.flushed then Kept(live, true) + [r] else Kept(live, met)
  {
    assert (live + [r])[..|live|] == live;
  }

  lemma CommittedStep(chain: Chain, i: nat)
    requires i < |chain|
    ensures CommittedFrom(chain, i) <==> chain[i].state == Committed || CommittedFrom(chain, i + 1)
  {
    if CommittedFrom(chain, i) && !CommittedFrom(chain, i + 1) {
      var j :| i <= j < |chain| && chain[j].state == Committed;
    }
  }
}
